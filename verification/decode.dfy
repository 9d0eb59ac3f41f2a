/** Counting the decodings of a digit string into letters 'A'..'Z' written as
    "1".."26" (decode.cpp). */
module Decode {

  predicate IsDigit(c: char)
  {
    '0' <= c <= '9'
  }

  predicate AllDigits(s: string)
  {
    forall i | 0 <= i < |s| :: IsDigit(s[i])
  }

  function DigitValue(c: char): int
  {
    c as int - '0' as int
  }

  /** The value `stoi` reads from the two digits at `index`. */
  function TwoDigits(s: string, index: int): int
    requires 0 <= index && index + 1 < |s|
  {
    10 * DigitValue(s[index]) + DigitValue(s[index + 1])
  }

  /** `decodeWays`: one way at the end of the string, none at a '0', else the
      ways after a one-digit letter plus, when the next two digits read 10..26,
      the ways after a two-digit letter. */
  function DecodeWays(s: string, index: int): (r: nat)
    requires AllDigits(s) && 0 <= index <= |s|
    decreases |s| - index
  {
    if index == |s| then 1
    else if s[index] == '0' then 0
    else
      DecodeWays(s, index + 1)
      + (if index + 1 < |s| && 10 <= TwoDigits(s, index) <= 26 then DecodeWays(s, index + 2) else 0)
  }

  /** A letter code: "1".."9" or "10".."26". */
  predicate Token(x: string)
  {
    || (|x| == 1 && '1' <= x[0] <= '9')
    || (|x| == 2 && '1' <= x[0] <= '9' && IsDigit(x[1]) && 10 * DigitValue(x[0]) + DigitValue(x[1]) <= 26)
  }

  function Concat(p: seq<string>): string
  {
    if p == [] then [] else p[0] + Concat(p[1..])
  }

  /** `p` splits `t` into letter codes. */
  predicate IsDecoding(t: string, p: seq<string>)
  {
    Concat(p) == t && forall i | 0 <= i < |p| :: Token(p[i])
  }

  function Prepend(x: string, ps: set<seq<string>>): set<seq<string>>
  {
    set p | p in ps :: [x] + p
  }

  /** All decodings of `t`, built by the first code. */
  ghost function Decodings(t: string): set<seq<string>>
    decreases |t|
  {
    if t == [] then {[]}
    else
      (if Token(t[..1]) then Prepend(t[..1], Decodings(t[1..])) else {})
      + (if |t| >= 2 && Token(t[..2]) then Prepend(t[..2], Decodings(t[2..])) else {})
  }

  /** `Decodings` holds exactly the splittings of `t` into letter codes. */
  lemma {:induction false} DecodingsExact(t: string, p: seq<string>)
    ensures p in Decodings(t) <==> IsDecoding(t, p)
    decreases |t|
  {
    if t == [] {
      if p != [] {
        assert Concat(p) == p[0] + Concat(p[1..]);
      }
    } else if p == [] {
      assert !IsDecoding(t, p);
    } else {
      var x, rest := p[0], p[1..];
      assert p == [x] + rest;
      assert Concat(p) == x + Concat(rest);
      assert (forall i | 0 <= i < |p| :: Token(p[i])) <==> Token(x) && (forall i | 0 <= i < |rest| :: Token(rest[i])) by {
        forall i | 0 <= i < |rest| ensures rest[i] == p[i + 1] {}
      }
      if Token(x) && Concat(p) == t {
        assert t[..|x|] == x && t[|x|..] == Concat(rest);
        DecodingsExact(t[|x|..], rest);
      }
      if p in Decodings(t) {
        if |x| == 1 && Token(t[..1]) && rest in Decodings(t[1..]) {
          DecodingsExact(t[1..], rest);
          assert t == t[..1] + t[1..];
        } else {
          assert x == t[..2] && rest in Decodings(t[2..]);
          DecodingsExact(t[2..], rest);
          assert t == t[..2] + t[2..];
        }
      }
    }
  }

  /** Prefixing one code to each decoding keeps them apart. */
  lemma {:induction false} PrependCard(x: string, ps: set<seq<string>>)
    ensures |Prepend(x, ps)| == |ps|
    decreases |ps|
  {
    if ps != {} {
      var p :| p in ps;
      var rest := ps - {p};
      PrependCard(x, rest);
      assert Prepend(x, ps) == Prepend(x, rest) + {[x] + p};
      forall q | q in rest ensures [x] + q != [x] + p {
        assert ([x] + q)[1..] == q && ([x] + p)[1..] == p;
      }
    }
  }

  /** For a digit string, `decodeWays` counts the splittings of the suffix
      from `index` into the codes "1".."26". */
  lemma {:induction false} DecodeWaysCounts(s: string, index: int)
    requires AllDigits(s) && 0 <= index <= |s|
    ensures DecodeWays(s, index) == |Decodings(s[index..])|
    decreases |s| - index
  {
    var t := s[index..];
    if index < |s| {
      assert t[..1] == [s[index]];
      var one := if Token(t[..1]) then Prepend(t[..1], Decodings(t[1..])) else {};
      var two := if |t| >= 2 && Token(t[..2]) then Prepend(t[..2], Decodings(t[2..])) else {};
      forall p | p in one ensures p != [] && |p[0]| == 1 {
      }
      forall p | p in two ensures p != [] && |p[0]| == 2 {
      }
      assert one * two == {};
      if s[index] != '0' {
        DecodeWaysCounts(s, index + 1);
        assert t[1..] == s[index + 1..];
        PrependCard(t[..1], Decodings(t[1..]));
        if index + 1 < |s| {
          assert t[..2] == [s[index], s[index + 1]];
          assert Token(t[..2]) <==> 10 <= TwoDigits(s, index) <= 26;
          if 10 <= TwoDigits(s, index) <= 26 {
            DecodeWaysCounts(s, index + 2);
            assert t[2..] == s[index + 2..];
            PrependCard(t[..2], Decodings(t[2..]));
          }
        }
      } else {
        assert !Token(t[..1]);
        assert |t| >= 2 ==> !Token(t[..2]);
      }
    }
  }

  /** The driver's string "11106" has exactly two decodings (1 1 10 6 and 11 10 6). */
  lemma DemoDecode()
    ensures DecodeWays("11106", 0) == 2
  {
    var s := "11106";
    assert DecodeWays(s, 5) == 1;
    assert DecodeWays(s, 4) == 1;
    assert DecodeWays(s, 3) == 0;
    assert TwoDigits(s, 2) == 10;
    assert DecodeWays(s, 2) == 1;
    assert TwoDigits(s, 1) == 11;
    assert DecodeWays(s, 1) == 1;
    assert TwoDigits(s, 0) == 11;
  }
}
