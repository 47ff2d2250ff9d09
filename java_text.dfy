/**
 * The parts of java.lang.String, java.lang.Integer and java.util.stream.Collectors
 * that the core relies on, stated at the level of characters: String.trim,
 * String.split(","), Collectors.joining, String.valueOf(int) and String.hashCode.
 * A Dafny char is a Unicode scalar value; for characters of the Basic
 * Multilingual Plane that is the same as a Java UTF-16 char.
 */
module JavaText {

  // ---------------------------------------------------------------------------
  // String.trim
  // ---------------------------------------------------------------------------

  /** String.trim removes every leading and trailing code point at or below U+0020. */
  predicate IsBlank(c: char) {
    c <= ' '
  }

  predicate AllBlank(s: string) {
    forall k :: 0 <= k < |s| ==> IsBlank(s[k])
  }

  /** Neither end of s is blank. */
  predicate IsTrimmed(s: string) {
    s == [] || (!IsBlank(s[0]) && !IsBlank(s[|s| - 1]))
  }

  lemma AllBlankConcat(a: string, b: string)
    ensures AllBlank(a + b) <==> AllBlank(a) && AllBlank(b)
  {
    if AllBlank(a + b) {
      forall k | 0 <= k < |a| ensures IsBlank(a[k]) { assert (a + b)[k] == a[k]; }
      forall k | 0 <= k < |b| ensures IsBlank(b[k]) { assert (a + b)[|a| + k] == b[k]; }
    }
  }

  /**
   * String.trim(): cut blanks off the front, then off the back, until neither
   * end is blank.
   */
  function Trim(s: string): (r: string)
    ensures IsTrimmed(r)
    ensures |r| <= |s|
    decreases |s|
  {
    if s != [] && IsBlank(s[0]) then Trim(s[1..])
    else if s != [] && IsBlank(s[|s| - 1]) then Trim(s[..|s| - 1])
    else s
  }

  /** What Trim keeps is a slice of s with only blanks before and after it. */
  lemma {:induction false} TrimIsSlice(s: string) returns (i: nat)
    ensures i + |Trim(s)| <= |s| && Trim(s) == s[i..i + |Trim(s)|]
    ensures AllBlank(s[..i]) && AllBlank(s[i + |Trim(s)|..])
    decreases |s|, 1
  {
    if s != [] && IsBlank(s[0]) {
      i := TrimIsSliceFront(s);
    } else if s != [] && IsBlank(s[|s| - 1]) {
      i := TrimIsSliceBack(s);
    } else {
      i := 0;
      assert s[..0] == [] && s[|s|..] == [] && s[0..|s|] == s;
    }
  }

  /** TrimIsSlice when s starts with a blank. */
  lemma {:induction false} TrimIsSliceFront(s: string) returns (i: nat)
    requires s != [] && IsBlank(s[0])
    ensures i + |Trim(s)| <= |s| && Trim(s) == s[i..i + |Trim(s)|]
    ensures AllBlank(s[..i]) && AllBlank(s[i + |Trim(s)|..])
    decreases |s|, 0
  {
    var r := Trim(s[1..]);
    assert Trim(s) == r;
    var i' := TrimIsSlice(s[1..]);
    SliceAfterBlank(s, r, i');
    i := i' + 1;
  }

  /** TrimIsSlice when s starts with a non-blank and ends with a blank. */
  lemma {:induction false} TrimIsSliceBack(s: string) returns (i: nat)
    requires s != [] && !IsBlank(s[0]) && IsBlank(s[|s| - 1])
    ensures i + |Trim(s)| <= |s| && Trim(s) == s[i..i + |Trim(s)|]
    ensures AllBlank(s[..i]) && AllBlank(s[i + |Trim(s)|..])
    decreases |s|, 0
  {
    var r := Trim(s[..|s| - 1]);
    assert Trim(s) == r;
    i := TrimIsSlice(s[..|s| - 1]);
    SliceBeforeBlank(s, r, i);
  }

  /** A blank-padded slice of s[1..] is one of s, when s starts with a blank. */
  lemma SliceAfterBlank(s: string, r: string, i: nat)
    requires s != [] && IsBlank(s[0])
    requires i + |r| <= |s| - 1 && r == s[1..][i..i + |r|]
    requires AllBlank(s[1..][..i]) && AllBlank(s[1..][i + |r|..])
    ensures r == s[i + 1..i + 1 + |r|]
    ensures AllBlank(s[..i + 1]) && AllBlank(s[i + 1 + |r|..])
  {
    var t := s[1..];
    assert s[..i + 1] == [s[0]] + t[..i];
    AllBlankConcat([s[0]], t[..i]);
    assert t[i..i + |r|] == s[i + 1..i + 1 + |r|];
    assert t[i + |r|..] == s[i + 1 + |r|..];
  }

  /** A blank-padded slice of s without its last character is one of s, when s ends with a blank. */
  lemma SliceBeforeBlank(s: string, r: string, i: nat)
    requires s != [] && IsBlank(s[|s| - 1])
    requires i + |r| <= |s| - 1 && r == s[..|s| - 1][i..i + |r|]
    requires AllBlank(s[..|s| - 1][..i]) && AllBlank(s[..|s| - 1][i + |r|..])
    ensures r == s[i..i + |r|]
    ensures AllBlank(s[..i]) && AllBlank(s[i + |r|..])
  {
    var t := s[..|s| - 1];
    assert t[..i] == s[..i];
    assert t[i..i + |r|] == s[i..i + |r|];
    assert s[i + |r|..] == t[i + |r|..] + [s[|s| - 1]];
    AllBlankConcat(t[i + |r|..], [s[|s| - 1]]);
  }

  /** Index form of a blank slice. */
  lemma BlankSliceAt(s: string, a: nat, b: nat)
    requires a <= b <= |s| && AllBlank(s[a..b])
    ensures forall k :: a <= k < b ==> IsBlank(s[k])
  {
    forall k | a <= k < b ensures IsBlank(s[k]) { assert s[a..b][k - a] == s[k]; }
  }

  /** A slice whose characters are all blank is blank. */
  lemma BlankRange(s: string, a: nat, b: nat)
    requires a <= b <= |s| && forall k :: a <= k < b ==> IsBlank(s[k])
    ensures AllBlank(s[a..b])
  {
    forall k | 0 <= k < b - a ensures IsBlank(s[a..b][k]) { assert s[a..b][k] == s[a + k]; }
  }

  /** The trimmed core of a string is unique: any trimmed slice padded only with blanks is what Trim returns. */
  lemma {:induction false} TrimUnique(s: string, i: nat, j: nat)
    requires i <= j <= |s|
    requires AllBlank(s[..i]) && AllBlank(s[j..]) && IsTrimmed(s[i..j])
    ensures Trim(s) == s[i..j]
    decreases |s|, 1
  {
    if s != [] && IsBlank(s[0]) {
      TrimUniqueFront(s, i, j);
    } else if s != [] && IsBlank(s[|s| - 1]) {
      TrimUniqueBack(s, i, j);
    } else if i < j {
      BlankSliceAt(s, 0, i);
      BlankSliceAt(s, j, |s|);
      assert s[i..j][0] == s[i];
      assert s[i..j][j - i - 1] == s[j - 1];
      assert i == 0 && j == |s|;
      assert s[0..|s|] == s;
    } else {
      BlankSliceAt(s, 0, i);
      BlankSliceAt(s, j, |s|);
      assert s == [];
    }
  }

  /** TrimUnique when s starts with a blank: the blank lies in the padding. */
  lemma {:induction false} TrimUniqueFront(s: string, i: nat, j: nat)
    requires i <= j <= |s|
    requires AllBlank(s[..i]) && AllBlank(s[j..]) && IsTrimmed(s[i..j])
    requires s != [] && IsBlank(s[0])
    ensures Trim(s) == s[i..j]
    decreases |s|, 0
  {
    BlankSliceAt(s, 0, i);
    BlankSliceAt(s, j, |s|);
    var t := s[1..];
    assert Trim(s) == Trim(t);
    if i == j {
      BlankRange(t, 0, |t|);
      assert t[..0] == [] && t[0..0] == [] && t[0..] == t && t[0..|t|] == t;
      TrimUnique(t, 0, 0);
    } else {
      assert s[i..j][0] == s[i];
      assert 0 < i;
      BlankRange(t, 0, i - 1);
      BlankRange(t, j - 1, |t|);
      assert t[..i - 1] == t[0..i - 1] && t[j - 1..] == t[j - 1..|t|];
      assert t[i - 1..j - 1] == s[i..j];
      TrimUnique(t, i - 1, j - 1);
    }
  }

  /** TrimUnique when s starts with a non-blank and ends with a blank: the blank lies in the padding. */
  lemma {:induction false} TrimUniqueBack(s: string, i: nat, j: nat)
    requires i <= j <= |s|
    requires AllBlank(s[..i]) && AllBlank(s[j..]) && IsTrimmed(s[i..j])
    requires s != [] && !IsBlank(s[0]) && IsBlank(s[|s| - 1])
    ensures Trim(s) == s[i..j]
    decreases |s|, 0
  {
    BlankSliceAt(s, 0, i);
    BlankSliceAt(s, j, |s|);
    var t := s[..|s| - 1];
    assert Trim(s) == Trim(t);
    assert s[i..j][j - i - 1] == s[j - 1];
    assert j < |s|;
    BlankRange(t, 0, i);
    BlankRange(t, j, |t|);
    assert t[..i] == t[0..i] && t[j..] == t[j..|t|];
    assert t[i..j] == s[i..j];
    TrimUnique(t, i, j);
  }

  /** Dropping the first d characters of an all-blank string leaves an all-blank string. */
  lemma BlankUnder(s: string, d: nat)
    requires d <= |s| && AllBlank(s)
    ensures AllBlank(s[d..])
  {
    forall k | 0 <= k < |s| - d ensures IsBlank(s[d..][k]) { assert s[d..][k] == s[d + k]; }
  }

  /** A trimmed string padded with blanks on either side trims back to itself. */
  lemma TrimPadded(p: string, x: string, q: string)
    requires AllBlank(p) && IsTrimmed(x) && AllBlank(q)
    ensures Trim(p + x + q) == x
  {
    var s := p + x + q;
    assert s[..|p|] == p;
    assert s[|p|..|p| + |x|] == x;
    assert s[|p| + |x|..] == q;
    TrimUnique(s, |p|, |p| + |x|);
  }

  /** A string with no blank at either end comes back from Trim unchanged. */
  lemma TrimTrimmed(s: string)
    requires IsTrimmed(s)
    ensures Trim(s) == s
  {
    assert s[..0] == [] && s[|s|..] == [] && s[0..|s|] == s;
    TrimUnique(s, 0, |s|);
  }

  /** Trimming twice is trimming once. */
  lemma TrimIdempotent(s: string)
    ensures Trim(Trim(s)) == Trim(s)
  {
    TrimTrimmed(Trim(s));
  }

  /** Trim returns the empty string exactly when s is blanks only. */
  lemma TrimEmptyIff(s: string)
    ensures Trim(s) == [] <==> AllBlank(s)
  {
    if AllBlank(s) {
      assert s[..0] == [] && s[0..0] == [] && s[0..] == s;
      TrimUnique(s, 0, 0);
    }
    var i := TrimIsSlice(s);
    if Trim(s) == [] {
      assert s == s[..i] + s[i..];
      AllBlankConcat(s[..i], s[i..]);
    }
  }

  // ---------------------------------------------------------------------------
  // String.split(",") and Collectors.joining
  // ---------------------------------------------------------------------------

  /** Every piece of s between commas, empty pieces included: one more piece than commas. */
  function SplitAll(s: string): (r: seq<string>)
    ensures |r| >= 1
    ensures forall k :: 0 <= k < |r| ==> ',' !in r[k]
  {
    if s == [] then [""]
    else
      var rest := SplitAll(s[1..]);
      if s[0] == ',' then [""] + rest else [[s[0]] + rest[0]] + rest[1..]
  }

  /** ps without its trailing empty strings. */
  function DropTrailingEmpty(ps: seq<string>): (r: seq<string>)
    ensures |r| <= |ps| && r == ps[..|r|]
    ensures forall k :: |r| <= k < |ps| ==> ps[k] == ""
    ensures r == [] || r[|r| - 1] != ""
  {
    if ps != [] && ps[|ps| - 1] == "" then DropTrailingEmpty(ps[..|ps| - 1]) else ps
  }

  /**
   * String.split(",") (limit 0): a string without a comma is its own single piece;
   * otherwise all pieces between commas, with the trailing empty pieces removed.
   */
  function Split(s: string): (r: seq<string>)
    ensures forall k :: 0 <= k < |r| ==> ',' !in r[k]
  {
    if ',' !in s then [s] else DropTrailingEmpty(SplitAll(s))
  }

  /** Collectors.joining(sep): the pieces in order with sep between neighbours. */
  function JoinWith(ps: seq<string>, sep: string): string
  {
    if ps == [] then ""
    else if |ps| == 1 then ps[0]
    else ps[0] + sep + JoinWith(ps[1..], sep)
  }

  /** Joining the pieces of s with commas gives s back. */
  lemma {:induction false} JoinSplitAll(s: string)
    ensures JoinWith(SplitAll(s), ",") == s
  {
    if s != [] {
      var rest := SplitAll(s[1..]);
      JoinSplitAll(s[1..]);
      if s[0] == ',' {
        assert ([""] + rest)[1..] == rest;
      } else if |rest| == 1 {
      } else {
        var r := [[s[0]] + rest[0]] + rest[1..];
        assert r[1..] == rest[1..];
        assert JoinWith(rest, ",") == rest[0] + "," + JoinWith(rest[1..], ",");
        assert JoinWith(r, ",") == [s[0]] + (rest[0] + "," + JoinWith(rest[1..], ","));
      }
    }
  }

  lemma {:induction false} SplitAllNoComma(s: string)
    requires ',' !in s
    ensures SplitAll(s) == [s]
  {
    if s != [] {
      assert ',' !in s[1..] by {
        forall k | 0 <= k < |s[1..]| ensures s[1..][k] != ',' { assert s[1..][k] == s[k + 1]; }
      }
      SplitAllNoComma(s[1..]);
      assert [s[0]] + s[1..] == s;
    }
  }

  lemma {:induction false} SplitAllAfterPiece(x: string, y: string)
    requires ',' !in x
    ensures SplitAll(x + "," + y) == [x] + SplitAll(y)
  {
    if x == [] {
      assert x + "," + y == [','] + y;
      assert ([','] + y)[1..] == y;
    } else {
      var s := x + "," + y;
      assert s[0] == x[0];
      assert s[1..] == x[1..] + "," + y;
      assert ',' !in x[1..] by {
        forall k | 0 <= k < |x[1..]| ensures x[1..][k] != ',' { assert x[1..][k] == x[k + 1]; }
      }
      SplitAllAfterPiece(x[1..], y);
      assert [x[0]] + x[1..] == x;
    }
  }

  /** Splitting pieces joined with commas gives the pieces back, when no piece holds a comma. */
  lemma {:induction false} SplitAllJoin(ps: seq<string>)
    requires |ps| >= 1
    requires forall k :: 0 <= k < |ps| ==> ',' !in ps[k]
    ensures SplitAll(JoinWith(ps, ",")) == ps
  {
    if |ps| == 1 {
      SplitAllNoComma(ps[0]);
    } else {
      SplitAllJoin(ps[1..]);
      SplitAllAfterPiece(ps[0], JoinWith(ps[1..], ","));
      assert [ps[0]] + ps[1..] == ps;
    }
  }

  /**
   * Splitting values joined with ", " on the comma alone: the first piece is the
   * first value and every later piece is a value behind one space.
   */
  lemma {:induction false} SplitAllJoinedWithCommaSpace(vals: seq<string>)
    requires |vals| >= 1
    requires forall k :: 0 <= k < |vals| ==> ',' !in vals[k]
    ensures var ps := SplitAll(JoinWith(vals, ", "));
      && |ps| == |vals| && ps[0] == vals[0]
      && forall k :: 1 <= k < |vals| ==> ps[k] == " " + vals[k]
  {
    if |vals| == 1 {
      SplitAllNoComma(vals[0]);
    } else {
      var rest := vals[1..];
      var jr := JoinWith(rest, ", ");
      SplitAllJoinedWithCommaSpace(rest);
      assert JoinWith(vals, ", ") == vals[0] + "," + (" " + jr);
      SplitAllAfterPiece(vals[0], " " + jr);
      assert (" " + jr)[1..] == jr;
    }
  }

  lemma {:induction false} SplitAllOfCommas(s: string)
    requires forall k :: 0 <= k < |s| ==> s[k] == ','
    ensures forall k :: 0 <= k < |SplitAll(s)| ==> SplitAll(s)[k] == ""
  {
    if s != [] {
      assert forall k :: 0 <= k < |s[1..]| ==> s[1..][k] == ',';
      SplitAllOfCommas(s[1..]);
    }
  }

  lemma {:induction false} JoinOfEmpties(ps: seq<string>)
    requires forall k :: 0 <= k < |ps| ==> ps[k] == ""
    ensures forall k :: 0 <= k < |JoinWith(ps, ",")| ==> JoinWith(ps, ",")[k] == ','
  {
    if |ps| > 1 {
      JoinOfEmpties(ps[1..]);
    }
  }

  /**
   * split(",") returns no piece at all exactly when s is one or more commas and
   * nothing else (every piece is then empty and trailing).
   */
  lemma SplitEmptyIff(s: string)
    ensures Split(s) == [] <==> s != [] && forall k :: 0 <= k < |s| ==> s[k] == ','
  {
    var ps := SplitAll(s);
    if s != [] && forall k :: 0 <= k < |s| ==> s[k] == ',' {
      assert s[0] == ',';
      SplitAllOfCommas(s);
    }
    if Split(s) == [] {
      assert ',' in s;
      JoinSplitAll(s);
      JoinOfEmpties(ps);
    }
  }

  // ---------------------------------------------------------------------------
  // String.valueOf(int) and Integer.parseInt
  // ---------------------------------------------------------------------------

  predicate IsDigit(c: char) {
    '0' <= c <= '9'
  }

  function DigitChar(d: nat): (c: char)
    requires d < 10
    ensures IsDigit(c) && c as int - '0' as int == d
  {
    ('0' as int + d) as char
  }

  /** The decimal numeral of n, without leading zeros. */
  function NatToString(n: nat): (r: string)
    ensures |r| >= 1
    ensures forall k :: 0 <= k < |r| ==> IsDigit(r[k])
    ensures r[0] == '0' ==> r == "0"
    decreases n
  {
    if n < 10 then [DigitChar(n)] else NatToString(n / 10) + [DigitChar(n % 10)]
  }

  /** String.valueOf(int) on a mathematical integer: a minus sign for negatives, then the digits. */
  function IntToString(i: int): (r: string)
    ensures |r| >= 1
    ensures forall k :: 0 < k < |r| ==> IsDigit(r[k])
    ensures (r[0] == '-') <==> i < 0
    ensures r[0] == '-' || IsDigit(r[0])
    ensures r[0] == '-' ==> |r| >= 2 && r[1] != '0'
    ensures i >= 0 && r[0] == '0' ==> r == "0"
  {
    if i < 0 then "-" + NatToString(-i) else NatToString(i)
  }

  /** The value of a string of decimal digits. */
  function DigitsValue(s: string): int
  {
    if s == [] then 0 else 10 * DigitsValue(s[..|s| - 1]) + (s[|s| - 1] as int - '0' as int)
  }

  /** Integer.parseInt on the numerals IntToString produces. */
  function ParseInt(s: string): int
  {
    if s != [] && s[0] == '-' then -DigitsValue(s[1..]) else DigitsValue(s)
  }

  lemma {:induction false} DigitsValueOfNatToString(n: nat)
    ensures DigitsValue(NatToString(n)) == n
    decreases n
  {
    if n >= 10 {
      DigitsValueOfNatToString(n / 10);
      var s := NatToString(n);
      assert s[..|s| - 1] == NatToString(n / 10);
    }
  }

  /** Reading back the numeral of i gives i: String.valueOf and Integer.parseInt are inverse. */
  lemma IntToStringRoundTrip(i: int)
    ensures ParseInt(IntToString(i)) == i
  {
    if i < 0 {
      DigitsValueOfNatToString(-i);
      assert IntToString(i)[1..] == NatToString(-i);
    } else {
      DigitsValueOfNatToString(i);
    }
  }

  /** Distinct integers have distinct numerals. */
  lemma IntToStringInjective(i: int, j: int)
    ensures IntToString(i) == IntToString(j) ==> i == j
  {
    IntToStringRoundTrip(i);
    IntToStringRoundTrip(j);
  }

  // ---------------------------------------------------------------------------
  // Java int arithmetic and String.hashCode
  // ---------------------------------------------------------------------------

  const INT_MODULUS: int := 0x1_0000_0000
  const INT_MIN: int := -0x8000_0000
  const INT_MAX: int := 0x7FFF_FFFF

  predicate IsInt(x: int) {
    INT_MIN <= x <= INT_MAX
  }

  /** The Java int that x wraps around to: the value in int range congruent to x modulo 2^32. */
  function WrapInt(x: int): (r: int)
    ensures IsInt(r)
    ensures (x - r) % INT_MODULUS == 0
    ensures IsInt(x) ==> r == x
  {
    (x - INT_MIN) % INT_MODULUS + INT_MIN
  }

  /** String.hashCode(): h = 31 * h + c over the characters, in int arithmetic. */
  function StringHash(s: string): (h: int)
    ensures IsInt(h)
  {
    if s == [] then 0 else WrapInt(31 * StringHash(s[..|s| - 1]) + s[|s| - 1] as int)
  }
}
