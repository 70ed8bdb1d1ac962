/** Why the one store is `Release` and its load `Acquire`: an operational model
    of views, in which each thread sees at least its view of each location and
    may read anything newer, and a release message carries its writer's view. */
module Visibility {
  import Wire

  const PAUSED := 0

  /** How far along each location's history a thread is certain to see. */
  datatype View = View(word: nat, table: seq<nat>)

  /** One store to the routing word, with the view an acquiring reader gains. */
  datatype Message = Message(value: nat, view: View)

  /** A place being swapped: the history of the routing word, the history of each
      slot of the incoming occupant's table, and who has seen what. The occupant
      writes the table and the frame stores the word. */
  datatype State = State(words: seq<Message>, table: seq<seq<int>>, occupant: View, frame: View, clients: seq<View>)

  datatype Step =
    | WriteTable(slot: nat, value: int)            // the occupant, relaxed
    | Acknowledge                                  // the occupant to the frame
    | Commit(generation: nat)                      // the frame, as built
    | PauseWord                                    // the frame, release
    | ClientPauses(client: nat)                    // a client, release
    | LoadWord(client: nat, at: nat)               // a client, acquire, reads the message at `at`
    | LoadTable(client: nat, slot: nat, at: nat)   // a client, relaxed, reads the write at `at`

  function Bottom(slots: nat): View { View(0, seq(slots, _ => 0)) }

  /** One routing word at `generation`, a table of zeros, and everyone at the start. */
  function Start(slots: nat, clients: nat, generation: nat): State {
    State([Message(generation, Bottom(slots))], seq(slots, _ => [0]), Bottom(slots), Bottom(slots),
          seq(clients, _ => Bottom(slots)))
  }

  predicate WellFormed(s: State) {
    && |s.words| > 0
    && |s.occupant.table| == |s.table| && |s.frame.table| == |s.table|
    && (forall i | 0 <= i < |s.words| :: |s.words[i].view.table| == |s.table|)
    && (forall c | 0 <= c < |s.clients| :: |s.clients[c].table| == |s.table|)
    && (forall k | 0 <= k < |s.table| :: s.occupant.table[k] == |s.table[k]| - 1)
  }

  predicate Enabled(s: State, step: Step) {
    match step
    case WriteTable(slot, _) => slot < |s.table|
    case Acknowledge => true
    case Commit(_) => true
    case PauseWord => true
    case ClientPauses(c) => c < |s.clients|
    case LoadWord(c, at) => c < |s.clients| && s.clients[c].word <= at < |s.words|
    case LoadTable(c, slot, at) =>
      c < |s.clients| && slot < |s.table| && slot < |s.clients[c].table|
      && s.clients[c].table[slot] <= at < |s.table[slot]|
  }

  function Join(a: View, b: View): View
    requires |a.table| == |b.table|
  {
    View(Wire.Max(a.word, b.word), seq(|a.table|, k requires 0 <= k < |a.table| => Wire.Max(a.table[k], b.table[k])))
  }

  /** One step. `release` is how the commit was built. */
  function Next(release: bool, s: State, step: Step): (r: State)
    requires WellFormed(s) && Enabled(s, step)
    ensures WellFormed(r)
    ensures |r.clients| == |s.clients| && |r.table| == |s.table|
  {
    match step
    case WriteTable(slot, value) =>
      s.(table := s.table[slot := s.table[slot] + [value]],
         occupant := s.occupant.(table := s.occupant.table[slot := |s.table[slot]|]))
    case Acknowledge => s.(frame := Join(s.frame, s.occupant))
    case Commit(generation) =>
      var seen := if release then s.frame else Bottom(|s.table|);
      s.(words := s.words + [Message(generation, seen.(word := |s.words|))],
         frame := s.frame.(word := |s.words|))
    case PauseWord =>
      s.(words := s.words + [Message(PAUSED, s.frame.(word := |s.words|))],
         frame := s.frame.(word := |s.words|))
    case ClientPauses(c) =>
      var view := s.clients[c].(word := |s.words|);
      s.(words := s.words + [Message(PAUSED, view)], clients := s.clients[c := view])
    case LoadWord(c, at) =>
      s.(clients := s.clients[c := Join(s.clients[c].(word := at), s.words[at].view)])
    case LoadTable(c, slot, at) =>
      s.(clients := s.clients[c := s.clients[c].(table := s.clients[c].table[slot := at])])
  }

  /** Where a run stands; a step that is not enabled does not happen. */
  function After(release: bool, s: State, steps: seq<Step>): (r: State)
    requires WellFormed(s)
    ensures WellFormed(r)
    decreases |steps|
  {
    if steps == [] then s
    else
      var before := After(release, s, steps[..|steps| - 1]);
      if Enabled(before, steps[|steps| - 1]) then Next(release, before, steps[|steps| - 1]) else before
  }

  /** The state before step `k` of a run under a release store. */
  function At(s: State, steps: seq<Step>, k: nat): State
    requires WellFormed(s) && k <= |steps|
  {
    After(true, s, steps[..k])
  }

  lemma {:induction false} AtNext(s: State, steps: seq<Step>, k: nat)
    requires WellFormed(s) && k < |steps| && Enabled(At(s, steps, k), steps[k])
    ensures At(s, steps, k + 1) == Next(true, At(s, steps, k), steps[k])
  {
    assert steps[..k + 1][..k] == steps[..k];
  }

  lemma {:induction false} AtSame(s: State, steps: seq<Step>, k: nat)
    requires WellFormed(s) && k < |steps| && !Enabled(At(s, steps, k), steps[k])
    ensures At(s, steps, k + 1) == At(s, steps, k)
  {
    assert steps[..k + 1][..k] == steps[..k];
  }

  /** Histories grow and views advance. */
  ghost predicate Extends(s: State, t: State) {
    && |s.words| <= |t.words| && (forall i | 0 <= i < |s.words| :: t.words[i] == s.words[i])
    && |s.table| == |t.table| && |s.clients| == |t.clients|
    && (forall k | 0 <= k < |s.table| :: |s.table[k]| <= |t.table[k]|)
    && (forall k | 0 <= k < |s.table| && k < |s.frame.table| && k < |t.frame.table| ::
          s.frame.table[k] <= t.frame.table[k])
    && (forall c, k | 0 <= c < |s.clients| && 0 <= k < |s.clients[c].table| && k < |t.clients[c].table| ::
          s.clients[c].table[k] <= t.clients[c].table[k])
  }

  lemma {:induction false} StepExtends(release: bool, s: State, step: Step)
    requires WellFormed(s) && Enabled(s, step)
    ensures Extends(s, Next(release, s, step))
  {
  }

  lemma {:induction false} ExtendsComposes(s: State, t: State, u: State)
    requires WellFormed(s) && WellFormed(t) && WellFormed(u) && Extends(s, t) && Extends(t, u)
    ensures Extends(s, u)
  {
    forall c, k | 0 <= c < |s.clients| && 0 <= k < |s.clients[c].table| && k < |u.clients[c].table|
      ensures s.clients[c].table[k] <= u.clients[c].table[k]
    {
      assert s.clients[c].table[k] <= t.clients[c].table[k] <= u.clients[c].table[k];
    }
    forall i | 0 <= i < |s.words| ensures u.words[i] == s.words[i] {
      assert t.words[i] == s.words[i];
    }
    forall k | 0 <= k < |s.table| ensures s.frame.table[k] <= u.frame.table[k] && |s.table[k]| <= |u.table[k]| {
      assert s.frame.table[k] <= t.frame.table[k] && |s.table[k]| <= |t.table[k]|;
    }
  }

  lemma {:induction false} RunExtends(s: State, steps: seq<Step>, i: nat, j: nat)
    requires WellFormed(s) && i <= j <= |steps|
    ensures Extends(At(s, steps, i), At(s, steps, j))
    decreases j
  {
    if i < j {
      var before := At(s, steps, j - 1);
      RunExtends(s, steps, i, j - 1);
      if Enabled(before, steps[j - 1]) {
        AtNext(s, steps, j - 1);
        StepExtends(true, before, steps[j - 1]);
        ExtendsComposes(At(s, steps, i), before, At(s, steps, j));
      } else {
        AtSame(s, steps, j - 1);
      }
    }
  }

  /** What the frame stores it has: a committed message carries at least what the
      occupant had written when it last acknowledged. */
  lemma {:induction false} CommitCarries(s: State, steps: seq<Step>, a: nat, c: nat, slot: nat)
    requires WellFormed(s) && a < c < |steps| && steps[a] == Acknowledge && steps[c].Commit? && slot < |s.table|
    ensures slot < |At(s, steps, a).table|
    ensures var committed := At(s, steps, c + 1);
            var index := |At(s, steps, c).words|;
            && index < |committed.words| && committed.words[index].value == steps[c].generation
            && slot < |committed.words[index].view.table|
            && |At(s, steps, a).table[slot]| - 1 <= committed.words[index].view.table[slot]
  {
    AtNext(s, steps, a);
    AtNext(s, steps, c);
    RunExtends(s, steps, 0, a);
    RunExtends(s, steps, a + 1, c);
    assert At(s, steps, 0) == s;
    assert |At(s, steps, a).table[slot]| - 1 <= At(s, steps, a + 1).frame.table[slot];
  }

  /** A client that loads the message of a commit gains what it carries. */
  lemma {:induction false} LoadGains(s: State, steps: seq<Step>, c: nat, l: nat, slot: nat)
    requires WellFormed(s) && c < l < |steps| && steps[c].Commit? && slot < |s.table|
    requires steps[l].LoadWord? && steps[l].at == |At(s, steps, c).words| && Enabled(At(s, steps, l), steps[l])
    ensures var client, index := steps[l].client, steps[l].at;
            && client < |At(s, steps, l + 1).clients| && slot < |At(s, steps, l + 1).clients[client].table|
            && index < |At(s, steps, c + 1).words| && slot < |At(s, steps, c + 1).words[index].view.table|
            && At(s, steps, c + 1).words[index].view.table[slot] <= At(s, steps, l + 1).clients[client].table[slot]
  {
    var index := steps[l].at;
    AtNext(s, steps, c);
    RunExtends(s, steps, 0, c);
    assert At(s, steps, 0) == s;
    RunExtends(s, steps, c + 1, l);
    assert At(s, steps, l).words[index] == At(s, steps, c + 1).words[index];
    AtNext(s, steps, l);
  }

  /** The visibility theorem. Over every run: the occupant acknowledges, the frame
      commits later, a client later still loads the message of that commit, and
      later still reads a slot of the table. It reads the last write made before
      the acknowledgement or a later one. Any number of clients, slots, pauses,
      acknowledgements and other commits may come anywhere between. */
  lemma {:induction false} CommitPublishes(s: State, steps: seq<Step>, a: nat, c: nat, l: nat, r: nat)
    requires WellFormed(s) && a < c < l < r < |steps|
    requires steps[a] == Acknowledge && steps[c].Commit?
    requires steps[l].LoadWord? && steps[l].at == |At(s, steps, c).words| && Enabled(At(s, steps, l), steps[l])
    requires steps[r].LoadTable? && steps[r].client == steps[l].client && Enabled(At(s, steps, r), steps[r])
    ensures var slot := steps[r].slot;
            slot < |At(s, steps, a).table| && |At(s, steps, a).table[slot]| - 1 <= steps[r].at
  {
    var slot, client, index := steps[r].slot, steps[l].client, |At(s, steps, c).words|;
    RunExtends(s, steps, 0, r);
    assert At(s, steps, 0) == s;
    CommitCarries(s, steps, a, c, slot);
    LoadGains(s, steps, c, l, slot);
    RunExtends(s, steps, l + 1, r);
    assert At(s, steps, l + 1).clients[client].table[slot] <= At(s, steps, r).clients[client].table[slot];
  }

  /** Before the one commit of a generation, nobody stored it. */
  lemma {:induction false} NotYetStored(s: State, steps: seq<Step>, generation: nat, j: nat)
    requires WellFormed(s) && j <= |steps| && generation != PAUSED
    requires forall i | 0 <= i < |s.words| :: s.words[i].value != generation
    requires forall k | 0 <= k < j :: steps[k] != Commit(generation)
    ensures forall i | 0 <= i < |At(s, steps, j).words| :: At(s, steps, j).words[i].value != generation
    decreases j
  {
    if j > 0 {
      NotYetStored(s, steps, generation, j - 1);
      if Enabled(At(s, steps, j - 1), steps[j - 1]) { AtNext(s, steps, j - 1); } else { AtSame(s, steps, j - 1); }
    } else {
      assert At(s, steps, 0) == s;
    }
  }

  /** And after it, only it did. */
  lemma {:induction false} StoredThere(s: State, steps: seq<Step>, c: nat, j: nat)
    requires WellFormed(s) && c < j <= |steps| && steps[c].Commit? && steps[c].generation != PAUSED
    requires forall i | 0 <= i < |s.words| :: s.words[i].value != steps[c].generation
    requires forall k | 0 <= k < j && k != c :: steps[k] != steps[c]
    ensures forall i | 0 <= i < |At(s, steps, j).words| && At(s, steps, j).words[i].value == steps[c].generation ::
              i == |At(s, steps, c).words|
    decreases j
  {
    if j == c + 1 {
      NotYetStored(s, steps, steps[c].generation, c);
      AtNext(s, steps, c);
    } else {
      StoredThere(s, steps, c, j - 1);
      if Enabled(At(s, steps, j - 1), steps[j - 1]) { AtNext(s, steps, j - 1); } else { AtSame(s, steps, j - 1); }
    }
  }

  /** The same by value. If this commit is the only one to store its generation,
      which is neither the pause nor in the word before, then a client that has
      read that generation reads of every slot the last write made before the
      acknowledgement or a later one. */
  lemma {:induction false} NewGenerationSeesTheTable(s: State, steps: seq<Step>, a: nat, c: nat, l: nat, r: nat)
    requires WellFormed(s) && a < c < l < r < |steps|
    requires steps[a] == Acknowledge && steps[c].Commit? && steps[c].generation != PAUSED
    requires forall i | 0 <= i < |s.words| :: s.words[i].value != steps[c].generation
    requires forall k | 0 <= k < l && k != c :: steps[k] != steps[c]
    requires steps[l].LoadWord? && Enabled(At(s, steps, l), steps[l])
    requires At(s, steps, l).words[steps[l].at].value == steps[c].generation
    requires steps[r].LoadTable? && steps[r].client == steps[l].client && Enabled(At(s, steps, r), steps[r])
    ensures var slot := steps[r].slot;
            slot < |At(s, steps, a).table| && |At(s, steps, a).table[slot]| - 1 <= steps[r].at
  {
    StoredThere(s, steps, c, l);
    CommitPublishes(s, steps, a, c, l, r);
  }

  /** What each ordering is worth, exactly: a client that has just read the commit
      can read from the table, of what it could read before, under `Release` what
      is not older than what the frame had seen, and under `Relaxed` all of it. */
  lemma {:induction false} OrderingExactly(release: bool, s: State, generation: nat, client: nat, slot: nat, at: nat)
    requires WellFormed(s) && client < |s.clients| && s.clients[client].word <= |s.words|
    ensures var committed := Next(release, s, Commit(generation));
            var loaded := Next(release, committed, LoadWord(client, |s.words|));
            Enabled(loaded, LoadTable(client, slot, at)) <==>
            Enabled(s, LoadTable(client, slot, at)) && (release ==> s.frame.table[slot] <= at)
  {
    var committed := Next(release, s, Commit(generation));
    var loaded := Next(release, committed, LoadWord(client, |s.words|));
    if slot < |s.table| {
      assert loaded.clients[client].table[slot] ==
             Wire.Max(s.clients[client].table[slot], committed.words[|s.words|].view.table[slot]);
    }
  }

  /** So both halves are needed. In a place with one table and one client the table
      is filled, the generation committed and read, and the table then read empty,
      if the store is relaxed although the occupant acknowledged, or if it did not
      acknowledge although the store is a release. */
  lemma {:induction false} EitherHalfMissingTears(value: int, generation: nat, release: bool)
    ensures var filled := Next(release, Start(1, 1, 1), WriteTable(0, value));
            var s := if release then filled else Next(release, filled, Acknowledge);
            var committed := Next(release, s, Commit(generation));
            var loaded := Next(release, committed, LoadWord(0, 1));
            committed.words[1].value == generation && Enabled(loaded, LoadTable(0, 0, 0)) && loaded.table[0][0] == 0
  {
    var filled := Next(release, Start(1, 1, 1), WriteTable(0, value));
    var s := if release then filled else Next(release, filled, Acknowledge);
    OrderingExactly(release, s, generation, 0, 0, 0);
  }
}
