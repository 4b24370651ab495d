/**
 * The handful of `str` operations the engine relies on: `starts_with`,
 * `contains`, `split('\n')`, and the decimal rendering of numbers that
 * `format!` performs.
 */
module Strings {

  /** `s.starts_with(p)` */
  predicate IsPrefix(p: string, s: string) {
    |p| <= |s| && s[..|p|] == p
  }

  /** `hay.contains(needle)`: some contiguous part of `hay` equals `needle`; the empty needle is in every string. */
  predicate Contains(hay: string, needle: string)
    decreases |hay|
  {
    IsPrefix(needle, hay) || (|hay| > 0 && Contains(hay[1..], needle))
  }

  /** A match at any offset is found by `Contains`. */
  lemma {:induction false} ContainsAt(hay: string, needle: string, i: nat)
    requires i + |needle| <= |hay| && hay[i..i + |needle|] == needle
    ensures Contains(hay, needle)
    decreases i
  {
    if i > 0 {
      assert hay[1..][i - 1..i - 1 + |needle|] == hay[i..i + |needle|];
      ContainsAt(hay[1..], needle, i - 1);
    }
  }

  /** A `Contains` match is witnessed by an offset. */
  lemma {:induction false} ContainsWitness(hay: string, needle: string) returns (i: nat)
    requires Contains(hay, needle)
    ensures i + |needle| <= |hay| && hay[i..i + |needle|] == needle
    decreases |hay|
  {
    if IsPrefix(needle, hay) {
      i := 0;
    } else {
      var k := ContainsWitness(hay[1..], needle);
      assert hay[1..][k..k + |needle|] == hay[k + 1..k + 1 + |needle|];
      i := k + 1;
    }
  }

  /**
   * `s.split(d)`: the pieces between occurrences of `d`, in order. There is
   * always at least one piece: "" splits into [""], and a trailing `d`
   * leaves a trailing "" piece.
   */
  function Split(s: string, d: char): (pieces: seq<string>)
    ensures |pieces| >= 1
    ensures forall p :: p in pieces ==> d !in p
    decreases |s|
  {
    if |s| == 0 then [""]
    else
      var rest := Split(s[1..], d);
      if s[0] == d then [""] + rest
      else [[s[0]] + rest[0]] + rest[1..]
  }

  /** The inverse of `Split`: the pieces glued back together with `d` between neighbours. */
  function Join(pieces: seq<string>, d: char): string {
    if |pieces| == 0 then ""
    else if |pieces| == 1 then pieces[0]
    else pieces[0] + [d] + Join(pieces[1..], d)
  }

  /** Splitting loses nothing: joining the pieces gives back the text. */
  lemma {:induction false} JoinSplit(s: string, d: char)
    ensures Join(Split(s, d), d) == s
    decreases |s|
  {
    if |s| > 0 {
      var rest := Split(s[1..], d);
      JoinSplit(s[1..], d);
      if s[0] == d {
        assert Split(s, d) == [""] + rest;
        assert ([""] + rest)[1..] == rest;
      } else if |rest| == 1 {
        assert Split(s, d) == [[s[0]] + rest[0]];
      } else {
        var pieces := [[s[0]] + rest[0]] + rest[1..];
        assert Split(s, d) == pieces;
        assert pieces[1..] == rest[1..];
        assert Join(rest, d) == rest[0] + [d] + Join(rest[1..], d);
      }
    }
  }

  /** A piece free of `d` followed by `d` splits off as one piece. */
  lemma {:induction false} SplitCons(p: string, t: string, d: char)
    requires d !in p
    ensures Split(p + [d] + t, d) == [p] + Split(t, d)
    decreases |p|
  {
    if |p| == 0 {
      assert p + [d] + t == [d] + t;
      assert ([d] + t)[1..] == t;
    } else {
      SplitCons(p[1..], t, d);
      assert (p + [d] + t)[1..] == p[1..] + [d] + t;
      assert [p[0]] + p[1..] == p;
    }
  }

  /** A text free of `d` is a single piece. */
  lemma {:induction false} SplitNone(p: string, d: char)
    requires d !in p
    ensures Split(p, d) == [p]
    decreases |p|
  {
    if |p| > 0 {
      SplitNone(p[1..], d);
      assert [p[0]] + p[1..] == p;
    }
  }

  /** Joining loses nothing either: pieces free of `d` are recovered by splitting. */
  lemma {:induction false} SplitJoin(pieces: seq<string>, d: char)
    requires |pieces| >= 1
    requires forall p :: p in pieces ==> d !in p
    ensures Split(Join(pieces, d), d) == pieces
    decreases |pieces|
  {
    if |pieces| == 1 {
      SplitNone(pieces[0], d);
    } else {
      assert pieces[0] in pieces;
      assert forall p :: p in pieces[1..] ==> p in pieces;
      SplitJoin(pieces[1..], d);
      SplitCons(pieces[0], Join(pieces[1..], d), d);
      assert [pieces[0]] + pieces[1..] == pieces;
    }
  }

  /** The decimal digit for `n`. */
  function Digit(n: nat): (c: char)
    requires n < 10
    ensures '0' <= c <= '9'
  {
    "0123456789"[n]
  }

  /** `format!("{}", n)` for an unsigned integer: its decimal digits, most significant first. */
  function Decimal(n: nat): (s: string)
    ensures 1 <= |s|
    ensures n < 10 ==> |s| == 1
    ensures n < 100 ==> |s| <= 2
    ensures n < 1000 ==> |s| <= 3
    ensures forall i :: 0 <= i < |s| ==> '0' <= s[i] <= '9'
    decreases n
  {
    if n < 10 then [Digit(n)] else Decimal(n / 10) + [Digit(n % 10)]
  }

  /** The number a string of decimal digits denotes, most significant digit first. */
  function ParseDecimal(s: string): nat
    requires forall i :: 0 <= i < |s| ==> '0' <= s[i] <= '9'
    decreases |s|
  {
    if s == [] then 0 else ParseDecimal(s[..|s| - 1]) * 10 + (s[|s| - 1] as int - '0' as int)
  }

  /** Each digit denotes its own value. */
  lemma DigitValue(d: nat)
    requires d < 10
    ensures Digit(d) as int - '0' as int == d
  {
    if d < 5 {
      assert d == 0 || d == 1 || d == 2 || d == 3 || d == 4;
    } else {
      assert d == 5 || d == 6 || d == 7 || d == 8 || d == 9;
    }
  }

  /** The decimal text of `n` denotes `n`: reading it back gives the number that was printed. */
  lemma {:induction false} DecimalRoundTrip(n: nat)
    ensures ParseDecimal(Decimal(n)) == n
    decreases n
  {
    var s := Decimal(n);
    if n < 10 {
      DigitValue(n);
      assert s[..0] == [];
    } else {
      DecimalRoundTrip(n / 10);
      DigitValue(n % 10);
      assert s[..|s| - 1] == Decimal(n / 10);
    }
  }
}
