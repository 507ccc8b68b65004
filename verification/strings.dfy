/**
 The free string helpers of the booking model: space trimming, the airport
 code check, date display formatting and list joining. Characters are
 compared by code point; `std::isalpha` is taken in the "C" locale, so the
 letters are exactly the ASCII letters.
 */
module Strings {

  // ---------------------------------------------------------------- trimming

  /** No leading and no trailing space (the empty string qualifies). */
  predicate Trimmed(s: string)
  {
    s == [] || (s[0] != ' ' && s[|s| - 1] != ' ')
  }

  predicate AllSpaces(s: string)
  {
    forall j | 0 <= j < |s| :: s[j] == ' '
  }

  /**
   `find_first_not_of(' ')` starting at `from`: the first index at or after
   `from` that does not hold a space, or `|s|` in place of `npos`.
   */
  function FirstNotSpace(s: string, from: nat): (k: nat)
    requires from <= |s|
    ensures from <= k <= |s|
    ensures forall j | from <= j < k :: s[j] == ' '
    ensures k < |s| ==> s[k] != ' '
    decreases |s| - from
  {
    if from == |s| then |s|
    else if s[from] != ' ' then from
    else FirstNotSpace(s, from + 1)
  }

  /**
   `find_last_not_of(' ')` over `s[..upto]`: the last index below `upto`
   that does not hold a space, or -1 when there is none.
   */
  function LastNotSpace(s: string, upto: nat): (k: int)
    requires upto <= |s|
    ensures -1 <= k < upto
    ensures forall j | k < j < upto :: s[j] == ' '
    ensures k >= 0 ==> s[k] != ' '
  {
    if upto == 0 then -1
    else if s[upto - 1] != ' ' then upto - 1
    else LastNotSpace(s, upto - 1)
  }

  /**
   `trimSpaces`: `s` without its leading and trailing spaces; an input of
   spaces only gives the empty string.
   */
  function TrimSpaces(s: string): (r: string)
    ensures |r| <= |s|
    ensures Trimmed(r)
    ensures r == [] <==> AllSpaces(s)
  {
    var begin := FirstNotSpace(s, 0);
    if begin == |s| then ""
    else
      var end := LastNotSpace(s, |s|);
      assert begin <= end;
      s[begin..end + 1]
  }

  /**
   The trim is one contiguous piece of `s`, and everything outside that
   piece is a space: no other character is ever removed.
   */
  lemma TrimSpacesRemovesOnlySpaces(s: string)
    ensures var r := TrimSpaces(s);
            exists b | 0 <= b <= |s| - |r| :: r == s[b..b + |r|] && AllSpaces(s[..b]) && AllSpaces(s[b + |r|..])
  {
    var r := TrimSpaces(s);
    var begin := FirstNotSpace(s, 0);
    if begin == |s| {
      assert AllSpaces(s[..0]) && AllSpaces(s[0..]);
      assert r == s[0..0];
    } else {
      assert r == s[begin..begin + |r|];
      assert AllSpaces(s[..begin]);
      assert AllSpaces(s[begin + |r|..]);
    }
  }

  /** A string without leading or trailing spaces is its own trim. */
  lemma TrimSpacesOfTrimmed(s: string)
    requires Trimmed(s)
    ensures TrimSpaces(s) == s
  {
    if s != [] {
      assert FirstNotSpace(s, 0) == 0;
      assert LastNotSpace(s, |s|) == |s| - 1;
      assert s[0..|s|] == s;
    }
  }

  lemma TrimSpacesIdempotent(s: string)
    ensures TrimSpaces(TrimSpaces(s)) == TrimSpaces(s)
  {
    TrimSpacesOfTrimmed(TrimSpaces(s));
  }

  function Spaces(n: nat): (r: string)
    ensures |r| == n && AllSpaces(r)
  {
    seq(n, _ => ' ')
  }

  /** Right padding with spaces is undone by trimming. */
  lemma {:induction false} TrimSpacesOfPadded(s: string, n: nat)
    requires Trimmed(s)
    ensures TrimSpaces(s + Spaces(n)) == s
  {
    var t := s + Spaces(n);
    if s == [] {
      assert AllSpaces(t);
    } else {
      assert FirstNotSpace(t, 0) == 0;
      assert t[|s| - 1] != ' ';
      assert LastNotSpace(t, |t|) == |s| - 1 by {
        LastNotSpaceSkipsSpaces(t, |s|, |t|);
      }
      assert t[0..|s|] == s;
    }
  }

  lemma {:induction false} LastNotSpaceSkipsSpaces(s: string, k: nat, upto: nat)
    requires 0 < k <= upto <= |s|
    requires s[k - 1] != ' '
    requires forall j | k <= j < upto :: s[j] == ' '
    ensures LastNotSpace(s, upto) == k - 1
    decreases upto
  {
    if upto > k {
      LastNotSpaceSkipsSpaces(s, k, upto - 1);
    }
  }

  // ----------------------------------------------------------- airport codes

  /** `std::isalpha` in the "C" locale. */
  predicate IsAlpha(c: char)
  {
    ('A' <= c <= 'Z') || ('a' <= c <= 'z')
  }

  /** `std::all_of(..., isalpha)`, scanning from the front. */
  function AllAlpha(s: string): (r: bool)
    ensures r <==> forall i | 0 <= i < |s| :: IsAlpha(s[i])
  {
    if s == [] then true else IsAlpha(s[0]) && AllAlpha(s[1..])
  }

  /** `isAirportCode`: exactly three letters, either case. */
  function IsAirportCode(code: string): (r: bool)
    ensures r <==> |code| == 3 && forall i | 0 <= i < 3 :: IsAlpha(code[i])
  {
    if |code| != 3 then false else AllAlpha(code)
  }

  lemma AirportCodeExamples()
    ensures IsAirportCode("LHR") && IsAirportCode("lhr") && IsAirportCode("ABC")
    ensures !IsAirportCode("xx1") && !IsAirportCode("ABCD")
    ensures !IsAirportCode("ab") && !IsAirportCode("AB3")
  {
    assert !IsAlpha("xx1"[2]);
    assert !IsAlpha("AB3"[2]);
  }

  // ------------------------------------------------------------------- dates

  /**
   `formatDate`: an eight-character `YYYYMMDD` string is shown as
   `DD.MM.YYYY`; any other length is returned as it is.
   */
  function FormatDate(iso: string): (r: string)
    ensures |iso| != 8 ==> r == iso
    ensures |iso| == 8 ==> |r| == 10 && r[2] == '.' && r[5] == '.'
  {
    if |iso| != 8 then iso
    else iso[6..8] + "." + iso[4..6] + "." + iso[0..4]
  }

  /** Reads a `DD.MM.YYYY` display date back into `YYYYMMDD`. */
  function IsoDate(display: string): (r: string)
    requires |display| == 10
    ensures |r| == 8
  {
    display[6..10] + display[3..5] + display[0..2]
  }

  /** Formatting an eight-character date loses nothing: it can be read back. */
  lemma FormatDateRoundTrip(iso: string)
    requires |iso| == 8
    ensures IsoDate(FormatDate(iso)) == iso
  {
    var r := FormatDate(iso);
    assert r[6..10] == iso[0..4];
    assert r[3..5] == iso[4..6];
    assert r[0..2] == iso[6..8];
    assert iso == iso[0..4] + iso[4..6] + iso[6..8];
  }

  // ----------------------------------------------------------------- joining

  function TotalLength(values: seq<string>): nat
  {
    if values == [] then 0 else TotalLength(values[..|values| - 1]) + |values[|values| - 1]|
  }

  /**
   `joinStrings`: the values in order, with `separator` between each
   neighbouring pair.
   */
  function JoinStrings(values: seq<string>, separator: string): (r: string)
    ensures values == [] ==> r == ""
    ensures |values| == 1 ==> r == values[0]
    ensures values != [] ==> |r| == TotalLength(values) + (|values| - 1) * |separator|
    decreases |values|
  {
    if |values| == 0 then ""
    else if |values| == 1 then values[0]
    else JoinStrings(values[..|values| - 1], separator) + separator + values[|values| - 1]
  }

  /** Where the `i`-th value starts in the joined string. */
  function JoinOffset(values: seq<string>, separator: string, i: nat): nat
    requires i <= |values|
  {
    TotalLength(values[..i]) + i * |separator|
  }

  /**
   The joined string holds each value, unchanged, at its offset, and the
   separator just before every value but the first.
   */
  lemma {:induction false} JoinStringsLayout(values: seq<string>, separator: string, i: nat)
    requires i < |values|
    ensures var r := JoinStrings(values, separator);
            var o := JoinOffset(values, separator, i);
            && o + |values[i]| <= |r|
            && r[o..o + |values[i]|] == values[i]
            && (i > 0 ==> o >= |separator| && r[o - |separator|..o] == separator)
    decreases |values|
  {
    var n := |values|;
    var r := JoinStrings(values, separator);
    var o := JoinOffset(values, separator, i);
    if n == 1 {
      assert values[..0] == [];
    } else {
      var p := values[..n - 1];
      var head := JoinStrings(p, separator);
      assert r == head + separator + values[n - 1];
      if i < n - 1 {
        JoinStringsLayout(p, separator, i);
        assert p[..i] == values[..i];
        assert JoinOffset(p, separator, i) == o;
        assert r[o..o + |values[i]|] == head[o..o + |values[i]|];
        if i > 0 {
          assert r[o - |separator|..o] == head[o - |separator|..o];
        }
      } else {
        assert values[..n - 1] == p;
        assert TotalLength(values[..n - 1]) == TotalLength(p);
        assert o == |head| + |separator|;
        assert r[o..o + |values[i]|] == values[n - 1];
        assert r[o - |separator|..o] == separator;
      }
    }
  }
}
