/** The two tokens a loader puts on a command line. */
module BootTokens {
  import opened Wire

  const DIGITS: nat := 64
  const ROOT_BYTES: nat := 32

  /** "f.root=" */
  const KEY: seq<Byte> := [102, 46, 114, 111, 111, 116, 61]
  /** "f.frame=" */
  const FRAME_KEY: seq<Byte> := [102, 46, 102, 114, 97, 109, 101, 61]

  datatype Refusal = UnknownFlag | MalformedHeader

  type Digest = d: seq<Byte> | |d| == ROOT_BYTES witness Zeros(ROOT_BYTES)

  type Nibble = n: int | 0 <= n < 16

  /** The lower-case alphabet. */
  function HexDigit(n: Nibble): Byte { if n < 10 then 48 + n else 87 + n }

  function NibbleOf(c: Byte): (r: Option<Nibble>)
    ensures r.Some? ==> HexDigit(r.value) == c
    ensures r.None? ==> forall n: Nibble :: HexDigit(n) != c
  {
    if 48 <= c <= 57 then Some(c - 48) else if 97 <= c <= 102 then Some(c - 97 + 10) else None
  }

  /** The two keys, the digits and the separators, as characters. */
  lemma {:induction false} Characters(i: nat, n: Nibble, b: Byte)
    ensures |KEY| == |"f.root="| && (i < |KEY| ==> KEY[i] == "f.root="[i] as int)
    ensures |FRAME_KEY| == |"f.frame="| && (i < |FRAME_KEY| ==> FRAME_KEY[i] == "f.frame="[i] as int)
    ensures HexDigit(n) == "0123456789abcdef"[n] as int
    ensures IsSpace(b) <==> b == ' ' as int || b == '\t' as int || b == '\n' as int || b == '\r' as int || b == 0x0C
  {
  }

  lemma {:induction false} NibbleReadsBack(n: Nibble)
    ensures NibbleOf(HexDigit(n)) == Some(n)
  {
  }

  function HexOf(bytes: seq<Byte>): (r: seq<Byte>)
    ensures |r| == 2 * |bytes|
  {
    if bytes == [] then [] else [HexDigit(bytes[0] / 16), HexDigit(bytes[0] % 16)] + HexOf(bytes[1..])
  }

  /** The token for a digest under a key. */
  function Token(key: seq<Byte>, digest: Digest): seq<Byte> { key + HexOf(digest) }

  lemma {:induction false} HexAt(bytes: seq<Byte>, n: nat)
    requires n < |bytes|
    ensures HexOf(bytes)[2 * n] == HexDigit(bytes[n] / 16) && HexOf(bytes)[2 * n + 1] == HexDigit(bytes[n] % 16)
    decreases |bytes|
  {
    if n > 0 {
      HexAt(bytes[1..], n - 1);
      var head := [HexDigit(bytes[0] / 16), HexDigit(bytes[0] % 16)];
      var rest := HexOf(bytes[1..]);
      assert HexOf(bytes) == head + rest;
      assert (head + rest)[2 * n] == rest[2 * (n - 1)];
      assert (head + rest)[2 * n + 1] == rest[2 * (n - 1) + 1];
    }
  }

  method Render(key: seq<Byte>, digest: Digest) returns (token: seq<Byte>)
    ensures token == Token(key, digest)
  {
    var out := new Byte[|key| + DIGITS](_ => 0);
    forall i | 0 <= i < |key| { out[i] := key[i]; }
    for n := 0 to |digest|
      invariant forall i | 0 <= i < |key| :: out[i] == key[i]
      invariant forall i | 0 <= i < 2 * n :: out[|key| + i] == HexOf(digest)[i]
    {
      HexAt(digest, n);
      out[|key| + 2 * n] := HexDigit(digest[n] / 16);
      out[|key| + 2 * n + 1] := HexDigit(digest[n] % 16);
    }
    token := out[..];
  }

  lemma {:induction false} HexAppend(bytes: seq<Byte>, b: Byte)
    ensures HexOf(bytes + [b]) == HexOf(bytes) + [HexDigit(b / 16), HexDigit(b % 16)]
    decreases |bytes|
  {
    if bytes == [] {
      assert [b][1..] == [] && bytes + [b] == [b];
    } else {
      HexAppend(bytes[1..], b);
      assert (bytes + [b])[1..] == bytes[1..] + [b];
    }
  }

  function ByteOf(high: Nibble, low: Nibble): (byte: Byte)
    ensures byte / 16 == high && byte % 16 == low
  {
    16 * high + low
  }

  lemma {:induction false} OneByteMore(digits: seq<Byte>, out: seq<Byte>, high: Nibble, low: Nibble)
    requires 2 * |out| + 2 <= |digits| && HexOf(out) == digits[..2 * |out|]
    requires HexDigit(high) == digits[2 * |out|] && HexDigit(low) == digits[2 * |out| + 1]
    ensures HexOf(out + [ByteOf(high, low)]) == digits[..2 * |out| + 2]
  {
    HexAppend(out, ByteOf(high, low));
    assert digits[..2 * |out| + 2] == digits[..2 * |out|] + [digits[2 * |out|], digits[2 * |out| + 1]];
  }

  lemma {:induction false} NotAllHex(digits: seq<Byte>, n: nat)
    requires n < ROOT_BYTES && |digits| == DIGITS
    requires NibbleOf(digits[2 * n]).None? || NibbleOf(digits[2 * n + 1]).None?
    ensures forall d: Digest :: HexOf(d) != digits
  {
    forall d: Digest ensures HexOf(d) != digits { HexAt(d, n); }
  }

  /** Sixty-four lower-case digits, or nothing. */
  method ReadDigest(digits: seq<Byte>) returns (r: Option<Digest>)
    ensures r.Some? ==> HexOf(r.value) == digits
    ensures r.None? ==> forall d: Digest :: HexOf(d) != digits
  {
    if |digits| != DIGITS { return None; }
    var out: seq<Byte> := [];
    for n := 0 to ROOT_BYTES
      invariant |out| == n && HexOf(out) == digits[..2 * n]
    {
      var high, low := NibbleOf(digits[2 * n]), NibbleOf(digits[2 * n + 1]);
      if high.None? || low.None? {
        NotAllHex(digits, n);
        return None;
      }
      OneByteMore(digits, out, high.value, low.value);
      out := out + [ByteOf(high.value, low.value)];
    }
    assert digits[..DIGITS] == digits;
    return Some(out);
  }

  lemma {:induction false} HexIsInjective(one: seq<Byte>, other: seq<Byte>)
    requires |one| == |other| && HexOf(one) == HexOf(other)
    ensures one == other
  {
    forall n | 0 <= n < |one| ensures one[n] == other[n] {
      HexAt(one, n);
      HexAt(other, n);
      NibbleReadsBack(one[n] / 16);
      NibbleReadsBack(one[n] % 16);
      NibbleReadsBack(other[n] / 16);
      NibbleReadsBack(other[n] % 16);
    }
  }

  /** What one word says under a key. */
  ghost predicate Parses(key: seq<Byte>, word: seq<Byte>, r: Result<Digest, Refusal>) {
    match r
    case Ok(digest) => word == Token(key, digest)
    case Err(UnknownFlag) => !(key <= word)
    case Err(MalformedHeader) => key <= word && forall d: Digest :: word != Token(key, d)
  }

  /** Every word says exactly one thing. */
  lemma {:induction false} ParseIsDetermined(
    key: seq<Byte>, word: seq<Byte>, r: Result<Digest, Refusal>, s: Result<Digest, Refusal>)
    requires Parses(key, word, r) && Parses(key, word, s)
    ensures r == s
  {
    if r.Ok? && s.Ok? {
      assert HexOf(r.value) == word[|key|..] == HexOf(s.value);
      HexIsInjective(r.value, s.value);
    }
  }

  method Parse(key: seq<Byte>, word: seq<Byte>) returns (r: Result<Digest, Refusal>)
    ensures Parses(key, word, r)
  {
    if !(key <= word) { return Err(UnknownFlag); }
    var digits := word[|key|..];
    assert word == key + digits;
    var digest := ReadDigest(digits);
    if digest.None? {
      forall d: Digest ensures word != Token(key, d) {
        assert word == Token(key, d) ==> HexOf(d) == digits;
      }
      return Err(MalformedHeader);
    }
    return Ok(digest.value);
  }

  /** The two tokens are two grammars: a word of one is no word of the other. */
  lemma {:induction false} TokensNeverCross(word: seq<Byte>, d: Digest)
    ensures word == Token(KEY, d) ==> !(FRAME_KEY <= word)
    ensures word == Token(FRAME_KEY, d) ==> !(KEY <= word)
  {
    if word == Token(KEY, d) { assert word[2] == KEY[2]; }
    if word == Token(FRAME_KEY, d) { assert word[2] == FRAME_KEY[2]; }
  }

  // ---- the line ------------------------------------------------------------

  /** ASCII whitespace: space, tab, newline, form feed, carriage return. */
  predicate IsSpace(b: Byte) { b == 32 || b == 9 || b == 10 || b == 12 || b == 13 }

  /** A word of a line: a separator or an end on either side, none inside. */
  ghost predicate IsWord(sep: Byte -> bool, line: seq<Byte>, i: int, j: int) {
    && 0 <= i <= j <= |line|
    && (i == 0 || sep(line[i - 1]))
    && (j == |line| || sep(line[j]))
    && forall k | i <= k < j :: !sep(line[k])
  }

  function WordEnd(sep: Byte -> bool, line: seq<Byte>, i: nat): (j: nat)
    requires i <= |line|
    ensures i <= j <= |line| && (j == |line| || sep(line[j])) && forall k | i <= k < j :: !sep(line[k])
    decreases |line| - i
  {
    if i == |line| || sep(line[i]) then i else WordEnd(sep, line, i + 1)
  }

  /** The first word from `i` on that begins with the key, as its two ends. */
  function FindWord(sep: Byte -> bool, line: seq<Byte>, key: seq<Byte>, i: nat): (r: Option<(nat, nat)>)
    requires i <= |line|
    ensures r.Some? ==> i <= r.value.0 <= r.value.1 <= |line|
    decreases |line| - i
  {
    var j := WordEnd(sep, line, i);
    if key <= line[i..j] then Some((i, j))
    else if j == |line| then None
    else FindWord(sep, line, key, j + 1)
  }

  /** There is a word here that begins with the key. */
  ghost predicate Matches(sep: Byte -> bool, line: seq<Byte>, key: seq<Byte>, i: int, j: int) {
    IsWord(sep, line, i, j) && key <= line[i..j]
  }

  /** No word that begins in this stretch of the line begins with the key. */
  ghost predicate NoneBegins(sep: Byte -> bool, line: seq<Byte>, key: seq<Byte>, from: int, to: int) {
    forall a, b | from <= a < to :: !Matches(sep, line, key, a, b)
  }

  lemma {:induction false} WordsAreMaximal(sep: Byte -> bool, line: seq<Byte>, i: int, j: int, a: int, b: int)
    requires IsWord(sep, line, i, j) && IsWord(sep, line, a, b) && i <= a <= j
    ensures a == i && b == j
  {
  }

  lemma {:induction false} WordHere(sep: Byte -> bool, line: seq<Byte>, i: nat)
    requires i <= |line| && (i == 0 || sep(line[i - 1]))
    ensures IsWord(sep, line, i, WordEnd(sep, line, i))
  {
  }

  /** What is found is a word that begins with the key. */
  lemma {:induction false} FoundMatches(sep: Byte -> bool, line: seq<Byte>, key: seq<Byte>, i: nat, a: nat, b: nat)
    requires i <= |line| && (i == 0 || sep(line[i - 1])) && FindWord(sep, line, key, i) == Some((a, b))
    ensures Matches(sep, line, key, a, b)
    decreases |line| - i
  {
    var j := WordEnd(sep, line, i);
    if key <= line[i..j] {
      WordHere(sep, line, i);
    } else {
      assert j < |line| && sep(line[j]);
      FoundMatches(sep, line, key, j + 1, a, b);
    }
  }

  /** Whatever word begins with the key, one is found by then. */
  lemma {:induction false} FoundByThen(sep: Byte -> bool, line: seq<Byte>, key: seq<Byte>, i: nat, c: int, d: int)
    requires i <= |line| && (i == 0 || sep(line[i - 1])) && i <= c && Matches(sep, line, key, c, d)
    ensures FindWord(sep, line, key, i).Some? && FindWord(sep, line, key, i).value.0 <= c
    decreases |line| - i
  {
    var j := WordEnd(sep, line, i);
    WordHere(sep, line, i);
    if key <= line[i..j] {
      assert FindWord(sep, line, key, i) == Some((i, j));
    } else if c <= j {
      WordsAreMaximal(sep, line, i, j, c, d);
    } else {
      FoundByThen(sep, line, key, j + 1, c, d);
    }
  }

  /** The word found begins with the key and none before it does; none is found
      only when there is none. */
  lemma {:induction false} FindWordIsFirst(sep: Byte -> bool, line: seq<Byte>, key: seq<Byte>, i: nat)
    requires i <= |line| && (i == 0 || sep(line[i - 1]))
    ensures match FindWord(sep, line, key, i)
            case None => NoneBegins(sep, line, key, i, |line| + 1)
            case Some(ends) => Matches(sep, line, key, ends.0, ends.1) && NoneBegins(sep, line, key, i, ends.0)
  {
    var found := FindWord(sep, line, key, i);
    if found.Some? { FoundMatches(sep, line, key, i, found.value.0, found.value.1); }
    var to := if found.Some? then found.value.0 else |line| + 1;
    forall c, d | i <= c < to ensures !Matches(sep, line, key, c, d) {
      if Matches(sep, line, key, c, d) { FoundByThen(sep, line, key, i, c, d); }
    }
  }

  /** `find`, for every line of every length: absent exactly when no word begins
      with the key; otherwise the first such word is judged and no other. */
  method Find(line: seq<Byte>, key: seq<Byte>) returns (r: Option<Result<Digest, Refusal>>)
    ensures r.None? <==> forall i, j :: !Matches(IsSpace, line, key, i, j)
    ensures r.Some? ==>
              exists i, j :: && Matches(IsSpace, line, key, i, j)
                             && (forall a, b | a < i :: !Matches(IsSpace, line, key, a, b))
                             && Parses(key, line[i..j], r.value)
    ensures r.Some? && r.value.Err? ==> r.value.error == MalformedHeader
  {
    FindWordIsFirst(IsSpace, line, key, 0);
    var found := FindWord(IsSpace, line, key, 0);
    if found.None? { return None; }
    var (i, j) := found.value;
    assert Matches(IsSpace, line, key, i, j);
    var parsed := Parse(key, line[i..j]);
    return Some(parsed);
  }
}
