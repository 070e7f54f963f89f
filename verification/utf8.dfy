/** What the trip of an alert as JSON does to its texts.  encoding/json replaces every
    byte that is not part of a UTF-8 encoded character by U+FFFD; all other escaping is
    undone at the other end.  Strings hold one char per byte. */
module Utf8 {

  /** U+FFFD in UTF-8. */
  const REPLACEMENT: string := ['\U{EF}', '\U{BF}', '\U{BD}']

  predicate InRange(s: string, i: nat, lo: int, hi: int) {
    i < |s| && lo <= s[i] as int <= hi
  }

  predicate Continues(s: string, i: nat) {
    InRange(s, i, 0x80, 0xBF)
  }

  /** The length of the UTF-8 character (section 4 of RFC 3629) a text starts with, 0 if
      it starts with none. */
  function RuneLength(s: string): (n: nat)
    ensures n <= |s| && n <= 4
  {
    if InRange(s, 0, 0, 0x7F) then 1
    else if InRange(s, 0, 0xC2, 0xDF) && Continues(s, 1) then 2
    else if ThreeBytes(s) && Continues(s, 2) then 3
    else if FourBytes(s) && Continues(s, 2) && Continues(s, 3) then 4
    else 0
  }

  predicate ThreeBytes(s: string) {
    (InRange(s, 0, 0xE0, 0xE0) && InRange(s, 1, 0xA0, 0xBF)) ||
    (InRange(s, 0, 0xED, 0xED) && InRange(s, 1, 0x80, 0x9F)) ||
    ((InRange(s, 0, 0xE1, 0xEC) || InRange(s, 0, 0xEE, 0xEF)) && Continues(s, 1))
  }

  predicate FourBytes(s: string) {
    (InRange(s, 0, 0xF0, 0xF0) && InRange(s, 1, 0x90, 0xBF)) ||
    (InRange(s, 0, 0xF4, 0xF4) && InRange(s, 1, 0x80, 0x8F)) ||
    (InRange(s, 0, 0xF1, 0xF3) && Continues(s, 1))
  }

  predicate Valid(s: string)
    decreases |s|
  {
    s == "" || (RuneLength(s) > 0 && Valid(s[RuneLength(s)..]))
  }

  /** A text after its trip. */
  function Trip(s: string): string
    decreases |s|
  {
    if s == "" then ""
    else
      var n := RuneLength(s);
      if n == 0 then REPLACEMENT + Trip(s[1..]) else s[..n] + Trip(s[n..])
  }

  /** A character is recognised whatever follows it. */
  lemma RuneThen(s: string, rest: string)
    requires RuneLength(s) > 0
    ensures RuneLength(s + rest) == RuneLength(s)
  {
    var t := s + rest;
    assert forall i :: 0 <= i < |s| ==> t[i] == s[i];
  }

  lemma RuneAlone(s: string)
    ensures RuneLength(s[..RuneLength(s)]) == RuneLength(s)
  {
    var n := RuneLength(s);
    assert forall i :: 0 <= i < n ==> s[..n][i] == s[i];
  }

  lemma RuneFirst(s: string, rest: string)
    requires s != "" && RuneLength(s) == |s|
    ensures Valid(s + rest) == Valid(rest) && Trip(s + rest) == s + Trip(rest)
  {
    RuneThen(s, rest);
    assert (s + rest)[..|s|] == s && (s + rest)[|s|..] == rest;
  }

  lemma {:induction false} TripGrows(s: string)
    ensures |Trip(s)| >= |s| && (|Trip(s)| == |s| ==> Valid(s) && Trip(s) == s)
    decreases |s|
  {
    hide RuneLength;
    if s == "" {
    } else if RuneLength(s) == 0 {
      TripGrows(s[1..]);
    } else {
      var n := RuneLength(s);
      TripGrows(s[n..]);
      assert s == s[..n] + s[n..];
    }
  }

  lemma {:induction false} ValidTripsUnchanged(s: string)
    requires Valid(s)
    ensures Trip(s) == s
    decreases |s|
  {
    hide RuneLength;
    if s == "" {
    } else {
      var n := RuneLength(s);
      ValidTripsUnchanged(s[n..]);
      assert s == s[..n] + s[n..];
    }
  }

  lemma {:induction false} TripIsValid(s: string)
    ensures Valid(Trip(s))
    decreases |s|
  {
    if s == "" {
    } else if RuneLength(s) == 0 {
      TripIsValid(s[1..]);
      assert RuneLength(REPLACEMENT) == 3;
      RuneFirst(REPLACEMENT, Trip(s[1..]));
    } else {
      var n := RuneLength(s);
      TripIsValid(s[n..]);
      RuneAlone(s);
      RuneFirst(s[..n], Trip(s[n..]));
    }
  }

  /** Main result: a text survives its trip iff it is valid UTF-8, and any text is valid
      after its first trip. */
  lemma TripsUnchangedIff(s: string)
    ensures Trip(s) == s <==> Valid(s)
    ensures Trip(Trip(s)) == Trip(s)
  {
    TripGrows(s);
    if Valid(s) {
      ValidTripsUnchanged(s);
    }
    TripIsValid(s);
    ValidTripsUnchanged(Trip(s));
  }

  /** Texts that are told apart only by bytes outside UTF-8 are not told apart after it. */
  lemma InvalidBytesMerge(x: char, y: char, rest: string)
    requires 0xF5 <= x as int <= 0xFF && 0xF5 <= y as int <= 0xFF
    ensures Trip([x] + rest) == Trip([y] + rest)
  {
    assert ([x] + rest)[1..] == rest == ([y] + rest)[1..];
  }

  lemma {:induction false} ValidConcat(a: string, b: string)
    requires Valid(a) && Valid(b)
    ensures Valid(a + b)
    decreases |a|
  {
    hide RuneLength;
    if a == "" {
      assert a + b == b;
    } else {
      var n := RuneLength(a);
      ValidConcat(a[n..], b);
      RuneAlone(a);
      RuneFirst(a[..n], a[n..] + b);
      assert a + b == a[..n] + (a[n..] + b);
    }
  }

  predicate Ascii(s: string) {
    forall i :: 0 <= i < |s| ==> s[i] as int < 0x80
  }

  lemma {:induction false} AsciiIsValid(s: string)
    requires Ascii(s)
    ensures Valid(s)
  {
    if s == "" {
    } else {
      AsciiIsValid(s[1..]);
    }
  }

  // ------------------------------------------------------- characters

  /** Unicode's scalar values: code points without the surrogates. */
  predicate Scalar(c: int) {
    0 <= c < 0x11_0000 && !(0xD800 <= c < 0xE000)
  }

  /** A byte that continues a character, with six bits of it. */
  function Continuation(x: int): string
    requires 0 <= x
  {
    [(0x80 + x % 64) as char]
  }

  /** The encoding of a character, as section 3 of RFC 3629 defines it. */
  function Encoded(c: int): (r: string)
    requires Scalar(c)
    ensures 1 <= |r| <= 4
  {
    if c < 0x80 then [c as char]
    else if c < 0x800 then [(0xC0 + c / 64) as char] + Continuation(c)
    else if c < 0x1_0000 then [(0xE0 + c / 64 / 64) as char] + Continuation(c / 64) + Continuation(c)
    else [(0xF0 + c / 64 / 64 / 64) as char] + Continuation(c / 64 / 64) + Continuation(c / 64) + Continuation(c)
  }

  predicate Scalars(cs: seq<int>) {
    forall i :: 0 <= i < |cs| ==> Scalar(cs[i])
  }

  function EncodedAll(cs: seq<int>): string
    requires Scalars(cs)
  {
    if cs == [] then "" else Encoded(cs[0]) + EncodedAll(cs[1..])
  }

  lemma EncodedIsRune(c: int)
    requires Scalar(c)
    ensures RuneLength(Encoded(c)) == |Encoded(c)|
  {
  }

  function Low(x: char): int {
    x as int % 64
  }

  /** The character a text starts with. */
  function Rune(s: string): int
    requires RuneLength(s) > 0
  {
    var n := RuneLength(s);
    if n == 1 then s[0] as int
    else if n == 2 then (s[0] as int - 0xC0) * 64 + Low(s[1])
    else if n == 3 then ((s[0] as int - 0xE0) * 64 + Low(s[1])) * 64 + Low(s[2])
    else (((s[0] as int - 0xF0) * 64 + Low(s[1])) * 64 + Low(s[2])) * 64 + Low(s[3])
  }

  lemma Shifted(x: int, y: int)
    requires 0 <= x && 0 <= y < 64
    ensures (x * 64 + y) / 64 == x && (x * 64 + y) % 64 == y
  {
  }

  lemma ContinuationOf(x: char, high: int)
    requires 0x80 <= x as int <= 0xBF && 0 <= high
    ensures Continuation(high * 64 + Low(x)) == [x] && (high * 64 + Low(x)) / 64 == high
  {
    Shifted(high, Low(x));
  }

  lemma TwoByteRune(s: string)
    requires RuneLength(s) == 2
    ensures Scalar(Rune(s)) && Encoded(Rune(s)) == s[..2]
  {
    ContinuationOf(s[1], s[0] as int - 0xC0);
    hide Continuation;
    assert s[..2] == [s[0]] + [s[1]];
  }

  lemma ThreeByteRune(s: string)
    requires RuneLength(s) == 3
    ensures Scalar(Rune(s)) && Encoded(Rune(s)) == s[..3]
  {
    var a := s[0] as int - 0xE0;
    ContinuationOf(s[1], a);
    ContinuationOf(s[2], a * 64 + Low(s[1]));
    hide Continuation;
    assert s[..3] == [s[0]] + [s[1]] + [s[2]];
  }

  lemma FourByteRune(s: string)
    requires RuneLength(s) == 4
    ensures Scalar(Rune(s)) && Encoded(Rune(s)) == s[..4]
  {
    var a := s[0] as int - 0xF0;
    ContinuationOf(s[1], a);
    ContinuationOf(s[2], a * 64 + Low(s[1]));
    ContinuationOf(s[3], (a * 64 + Low(s[1])) * 64 + Low(s[2]));
    hide Continuation;
    assert s[..4] == [s[0]] + [s[1]] + [s[2]] + [s[3]];
  }

  lemma RuneIsEncoded(s: string)
    requires RuneLength(s) > 0
    ensures Scalar(Rune(s)) && Encoded(Rune(s)) == s[..RuneLength(s)]
  {
    if RuneLength(s) == 1 {
      assert s[..1] == [s[0]];
    } else if RuneLength(s) == 2 {
      TwoByteRune(s);
    } else if RuneLength(s) == 3 {
      ThreeByteRune(s);
    } else {
      FourByteRune(s);
    }
  }

  lemma {:induction false} EncodedIsValid(cs: seq<int>)
    requires Scalars(cs)
    ensures Valid(EncodedAll(cs))
  {
    hide RuneLength, Encoded, Scalar, Valid;
    if cs == [] {
      NothingIsValid();
    } else {
      EncodedIsValid(cs[1..]);
      EncodedIsRune(cs[0]);
      RuneFirst(Encoded(cs[0]), EncodedAll(cs[1..]));
    }
  }

  lemma NothingIsValid()
    ensures Valid("") && EncodedAll([]) == ""
  {
  }

  lemma {:induction false} ValidIsEncoded(s: string) returns (cs: seq<int>)
    requires Valid(s)
    ensures Scalars(cs) && EncodedAll(cs) == s
    decreases |s|
  {
    hide RuneLength, Encoded, Scalar;
    if s == "" {
      NothingIsValid();
      cs := [];
    } else {
      var n := RuneLength(s);
      var rest := ValidIsEncoded(s[n..]);
      RuneIsEncoded(s);
      cs := [Rune(s)] + rest;
      assert cs[1..] == rest;
      assert s == s[..n] + s[n..];
    }
  }

  /** Main result: the texts that survive their trip are the encodings of sequences of
      Unicode characters, and no others. */
  lemma ValidIff(s: string)
    ensures Valid(s) <==> exists cs :: Scalars(cs) && EncodedAll(cs) == s
  {
    hide Valid, EncodedAll;
    if Valid(s) {
      var cs := ValidIsEncoded(s);
    }
    forall cs | Scalars(cs) && EncodedAll(cs) == s
      ensures Valid(s)
    {
      EncodedIsValid(cs);
    }
  }

  /** Main result: the trip, character by character.  A character arrives as it was; a
      byte at which none starts is replaced by U+FFFD. */
  lemma TripByCharacters(c: int, s: string)
    ensures Scalar(c) ==> Trip(Encoded(c) + s) == Encoded(c) + Trip(s)
    ensures s != "" && (forall d :: Scalar(d) ==> !(Encoded(d) <= s)) ==> Trip(s) == Encoded(0xFFFD) + Trip(s[1..])
  {
    hide Valid;
    if Scalar(c) {
      EncodedIsRune(c);
      RuneFirst(Encoded(c), s);
    }
    if RuneLength(s) > 0 {
      RuneIsEncoded(s);
    } else if s != "" {
      assert Encoded(0xFFFD) == REPLACEMENT;
    }
  }
}
