/**
 `formatNumber` of the matches viewer: the decimal text of a score with a comma
 inserted before every complete group of three digits counted from the right,
 computed by one global regular-expression replacement,
 `text.replace(/(\d)(?=(\d{3})+(?!\d))/g, '$1,')`.

 The replacement is modelled on arbitrary strings (SeparatorReplace), then
 proved equal, on digit strings, to a reference grouping (Grouped: split into
 threes from the right, join with commas).
 */
module NumberFormat {
  import opened Decimal

  // ---------------------------------------------------------------------------
  // The regular expression and the global replacement
  // ---------------------------------------------------------------------------

  /** Length of the run of digits at the head of `s`. */
  function LeadingDigits(s: string): (k: nat)
    ensures k <= |s|
    ensures AllDigits(s[..k])
    ensures k < |s| ==> !IsDigit(s[k])
  {
    if s == [] || !IsDigit(s[0]) then 0 else 1 + LeadingDigits(s[1..])
  }

  /** A digit string followed by a non-digit: the run at the head is exactly the digit string. */
  lemma {:induction false} LeadingDigitsOfPrefix(a: string, x: string)
    requires AllDigits(a) && |x| >= 1 && !IsDigit(x[0])
    ensures LeadingDigits(a + x) == |a|
  {
    if a == [] {
      assert a + x == x;
    } else {
      assert (a + x)[1..] == a[1..] + x;
      LeadingDigitsOfPrefix(a[1..], x);
    }
  }

  /** `(\d{3})+(?!\d)` matches at the head of `t` taking exactly `m` groups of three. */
  ghost predicate GroupsThenBoundary(t: string, m: nat) {
    && 1 <= m
    && 3 * m <= |t|
    && AllDigits(t[..3 * m])
    && (3 * m == |t| || !IsDigit(t[3 * m]))
  }

  /** The lookahead `(?=(\d{3})+(?!\d))` succeeds at the head of `t`, for some number of groups. */
  ghost predicate LookaheadHolds(t: string) {
    exists m: nat :: GroupsThenBoundary(t, m)
  }

  /**
   The pattern `(\d)(?=(\d{3})+(?!\d))` matches at the head of `s`: a digit,
   followed by a run of digits whose length is a positive multiple of three.
   */
  predicate SeparatorMatch(s: string)
    ensures SeparatorMatch(s) <==> |s| >= 1 && IsDigit(s[0]) && LookaheadHolds(s[1..])
  {
    if |s| == 0 then false
    else
      LookaheadIsRunLength(s[1..]);
      var k := LeadingDigits(s[1..]);
      IsDigit(s[0]) && k > 0 && k % 3 == 0
  }

  /** The lookahead succeeds exactly when the digit run it sees has a positive length divisible by three. */
  lemma LookaheadIsRunLength(t: string)
    ensures LookaheadHolds(t) <==> (LeadingDigits(t) > 0 && LeadingDigits(t) % 3 == 0)
  {
    var k := LeadingDigits(t);
    if k > 0 && k % 3 == 0 {
      assert GroupsThenBoundary(t, k / 3);
    }
    if LookaheadHolds(t) {
      var m: nat :| GroupsThenBoundary(t, m);
      assert 3 * m == k;
    }
  }

  /**
   `s.replace(/(\d)(?=(\d{3})+(?!\d))/g, '$1,')`. The global replacement tries
   the pattern at every position from left to right; a match consumes exactly
   one digit, which is written back followed by a comma. The lookahead reads
   the original text, so each position is decided on the suffix of `s` that
   starts there.
   */
  function SeparatorReplace(s: string): (r: string)
    ensures CommasInserted(s, r)
  {
    if s == [] then []
    else [s[0]] + (if SeparatorMatch(s) then "," else "") + SeparatorReplace(s[1..])
  }

  /** `formatNumber(num)` for a natural `num`: its decimal text, grouped by commas. */
  function FormatNumber(num: nat): (r: string)
    ensures r == Grouped(DecimalDigits(num))
    ensures RemoveCommas(r) == DecimalDigits(num)
  {
    ReplaceIsGrouping(DecimalDigits(num));
    GroupedKeepsDigits(DecimalDigits(num));
    SeparatorReplace(DecimalDigits(num))
  }

  // ---------------------------------------------------------------------------
  // Reference grouping, commas, splitting
  // ---------------------------------------------------------------------------

  /** Concatenation of a sequence of strings. */
  function Concat(gs: seq<string>): string {
    if gs == [] then [] else Concat(gs[..|gs| - 1]) + gs[|gs| - 1]
  }

  /**
   Cuts `s` into groups of three from the right: every group has three
   characters except the first, which has one to three (none only for the empty string).
   */
  function Chunks(s: string): (gs: seq<string>)
    decreases |s|
    ensures |gs| >= 1 && Concat(gs) == s
    ensures |gs[0]| <= 3 && (|s| >= 1 ==> |gs[0]| >= 1)
    ensures forall i :: 1 <= i < |gs| ==> |gs[i]| == 3
    ensures |s| >= 1 ==> |gs| == (|s| - 1) / 3 + 1
  {
    if |s| <= 3 then [s]
    else
      var p, t := s[..|s| - 3], s[|s| - 3..];
      var init := Chunks(p);
      var gs := init + [t];
      assert gs[..|gs| - 1] == init && gs[0] == init[0];
      assert s == p + t;
      gs
  }

  /** The groups of a digit string are digit strings. */
  lemma {:induction false} ChunksOfDigits(s: string)
    requires AllDigits(s)
    ensures forall i :: 0 <= i < |Chunks(s)| ==> AllDigits(Chunks(s)[i])
    decreases |s|
  {
    if |s| > 3 {
      var p, t := s[..|s| - 3], s[|s| - 3..];
      assert s == p + t;
      AllDigitsAppend(p, t);
      ChunksOfDigits(p);
      assert Chunks(s) == Chunks(p) + [t];
    }
  }

  /** The groups joined by commas. */
  function JoinCommas(gs: seq<string>): string
    requires |gs| >= 1
  {
    if |gs| == 1 then gs[0] else JoinCommas(gs[..|gs| - 1]) + "," + gs[|gs| - 1]
  }

  /** Reference digit grouping. */
  function Grouped(s: string): string {
    JoinCommas(Chunks(s))
  }

  predicate NoCommas(s: string) {
    forall i :: 0 <= i < |s| ==> s[i] != ','
  }

  /** `s.replace(/,/g, '')`. */
  function RemoveCommas(s: string): (r: string)
    ensures NoCommas(r)
    ensures |r| <= |s|
  {
    if s == [] then [] else (if s[0] == ',' then [] else [s[0]]) + RemoveCommas(s[1..])
  }

  /**
   `r` is `s` with commas inserted: every character of `s`, commas included, is
   kept in order, and every other character of `r` is a comma.
   */
  predicate CommasInserted(s: string, r: string)
    decreases |r|
  {
    if r == [] then s == []
    else
      || (s != [] && r[0] == s[0] && CommasInserted(s[1..], r[1..]))
      || (r[0] == ',' && CommasInserted(s, r[1..]))
  }

  /** Inserting commas does not change the text once every comma is deleted. */
  lemma {:induction false} CommasInsertedRemove(s: string, r: string)
    requires CommasInserted(s, r)
    ensures RemoveCommas(r) == RemoveCommas(s)
    decreases |r|
  {
    if r != [] {
      if s != [] && r[0] == s[0] && CommasInserted(s[1..], r[1..]) {
        CommasInsertedRemove(s[1..], r[1..]);
      } else {
        CommasInsertedRemove(s, r[1..]);
      }
    }
  }

  function CountCommas(s: string): nat {
    if s == [] then 0 else (if s[0] == ',' then 1 else 0) + CountCommas(s[1..])
  }

  /** `s.split(',')`: the pieces between commas, in order; always at least one. */
  function SplitOnCommas(s: string): (gs: seq<string>)
    ensures |gs| >= 1
    ensures forall i :: 0 <= i < |gs| ==> NoCommas(gs[i])
  {
    if s == [] then [[]]
    else
      var rest := SplitOnCommas(s[1..]);
      if s[0] == ',' then [[]] + rest else [[s[0]] + rest[0]] + rest[1..]
  }

  // ---------------------------------------------------------------------------
  // Lemmas about commas and splitting
  // ---------------------------------------------------------------------------

  lemma {:induction false} RemoveCommasAppend(a: string, b: string)
    ensures RemoveCommas(a + b) == RemoveCommas(a) + RemoveCommas(b)
  {
    if a == [] {
      assert a + b == b;
    } else {
      assert (a + b)[0] == a[0];
      assert (a + b)[1..] == a[1..] + b;
      RemoveCommasAppend(a[1..], b);
    }
  }

  lemma {:induction false} CountCommasAppend(a: string, b: string)
    ensures CountCommas(a + b) == CountCommas(a) + CountCommas(b)
  {
    if a == [] {
      assert a + b == b;
    } else {
      assert (a + b)[0] == a[0];
      assert (a + b)[1..] == a[1..] + b;
      CountCommasAppend(a[1..], b);
    }
  }

  lemma {:induction false} NoCommasFixed(s: string)
    requires NoCommas(s)
    ensures RemoveCommas(s) == s && CountCommas(s) == 0 && SplitOnCommas(s) == [s]
  {
    if s != [] {
      NoCommasFixed(s[1..]);
    }
  }

  /** Splitting at a comma splits the pieces on either side independently. */
  lemma {:induction false} SplitAppend(a: string, b: string)
    ensures SplitOnCommas(a + "," + b) == SplitOnCommas(a) + SplitOnCommas(b)
  {
    if a == [] {
      assert a + "," + b == [','] + b;
      assert ([','] + b)[1..] == b;
    } else {
      assert (a + "," + b)[0] == a[0];
      assert (a + "," + b)[1..] == a[1..] + "," + b;
      SplitAppend(a[1..], b);
    }
  }

  /** Splitting a comma-joined list of comma-free pieces gives the pieces back. */
  lemma {:induction false} SplitJoin(gs: seq<string>)
    requires |gs| >= 1
    requires forall i :: 0 <= i < |gs| ==> NoCommas(gs[i])
    ensures SplitOnCommas(JoinCommas(gs)) == gs
  {
    var last := gs[|gs| - 1];
    NoCommasFixed(last);
    if |gs| > 1 {
      SplitJoin(gs[..|gs| - 1]);
      SplitAppend(JoinCommas(gs[..|gs| - 1]), last);
    }
  }

  /** Joining comma-free pieces adds nothing but commas. */
  lemma {:induction false} JoinCommasContents(gs: seq<string>)
    requires |gs| >= 1
    requires forall i :: 0 <= i < |gs| ==> NoCommas(gs[i])
    ensures RemoveCommas(JoinCommas(gs)) == Concat(gs)
  {
    var last := gs[|gs| - 1];
    NoCommasFixed(last);
    if |gs| == 1 {
      assert Concat(gs) == Concat([]) + last;
    } else {
      var init := gs[..|gs| - 1];
      JoinCommasContents(init);
      var j := JoinCommas(init);
      RemoveCommasAppend(j + ",", last);
      RemoveCommasAppend(j, ",");
    }
  }

  /** Joining comma-free pieces puts in exactly one comma fewer than there are pieces. */
  lemma {:induction false} JoinCommasCount(gs: seq<string>)
    requires |gs| >= 1
    requires forall i :: 0 <= i < |gs| ==> NoCommas(gs[i])
    ensures CountCommas(JoinCommas(gs)) == |gs| - 1
  {
    var last := gs[|gs| - 1];
    NoCommasFixed(last);
    if |gs| > 1 {
      var init := gs[..|gs| - 1];
      JoinCommasCount(init);
      var j := JoinCommas(init);
      CountCommasAppend(j + ",", last);
      CountCommasAppend(j, ",");
    }
  }

  lemma DigitsHaveNoCommas(s: string)
    requires AllDigits(s)
    ensures NoCommas(s)
  {
    forall i | 0 <= i < |s| ensures s[i] != ',' {
      assert IsDigit(s[i]);
    }
  }

  /** Deleting the commas of the reference grouping gives back the digits. */
  lemma GroupedKeepsDigits(s: string)
    requires AllDigits(s)
    ensures RemoveCommas(Grouped(s)) == s
    ensures CountCommas(Grouped(s)) == |Chunks(s)| - 1
    ensures SplitOnCommas(Grouped(s)) == Chunks(s)
  {
    var gs := Chunks(s);
    ChunksOfDigits(s);
    forall i | 0 <= i < |gs| ensures NoCommas(gs[i]) {
      DigitsHaveNoCommas(gs[i]);
    }
    JoinCommasContents(gs);
    JoinCommasCount(gs);
    SplitJoin(gs);
  }

  // ---------------------------------------------------------------------------
  // The replacement on digit strings is the reference grouping
  // ---------------------------------------------------------------------------

  lemma AllDigitsAppend(a: string, b: string)
    ensures AllDigits(a + b) <==> AllDigits(a) && AllDigits(b)
  {
    if AllDigits(a + b) {
      forall i | 0 <= i < |a| ensures IsDigit(a[i]) {
        assert a[i] == (a + b)[i];
      }
      forall i | 0 <= i < |b| ensures IsDigit(b[i]) {
        assert b[i] == (a + b)[|a| + i];
      }
    }
  }

  /** On a digit string the pattern matches at a position exactly when a positive multiple of three digits follows it. */
  lemma MatchOnDigits(s: string)
    requires AllDigits(s) && |s| >= 1
    ensures SeparatorMatch(s) <==> |s| >= 2 && (|s| - 1) % 3 == 0
  {
    assert LeadingDigits(s[1..]) == |s| - 1;
  }

  /** Up to three digits are left alone. */
  lemma {:induction false} ReplaceShort(s: string)
    requires AllDigits(s) && |s| <= 3
    ensures SeparatorReplace(s) == s
  {
    if s != [] {
      MatchOnDigits(s);
      ReplaceShort(s[1..]);
    }
  }

  /**
   Before a tail of digits whose length is a positive multiple of three, the
   replacement puts exactly one comma, and treats both sides as it would alone.
   */
  lemma {:induction false} ReplaceSplit(s: string, t: string)
    requires AllDigits(s + t) && |s| >= 1 && |t| > 0 && |t| % 3 == 0
    ensures SeparatorReplace(s + t) == SeparatorReplace(s) + "," + SeparatorReplace(t)
  {
    var st := s + t;
    AllDigitsAppend(s, t);
    ReplaceStepOnDigits(st);
    ReplaceStepOnDigits(s);
    assert st[0] == s[0];
    assert st[1..] == s[1..] + t;
    var rt := SeparatorReplace(t);
    if |s| == 1 {
      assert CommaAfterHead(|st|);
      assert SeparatorReplace(s) == [s[0]];
    } else {
      var rest := s[1..];
      CommaAfterHeadShift(|s|, |t|);
      AllDigitsAppend(rest, t);
      ReplaceSplit(rest, t);
      var c := if CommaAfterHead(|s|) then "," else "";
      ReassociateSplit([s[0]] + c, SeparatorReplace(rest), rt);
    }
  }

  lemma ReassociateSplit(h: string, a: string, b: string)
    ensures h + (a + "," + b) == (h + a) + "," + b
  {
  }

  /** In a digit string of length `n`, a comma follows the first digit. */
  predicate CommaAfterHead(n: nat) {
    n >= 2 && (n - 1) % 3 == 0
  }

  lemma CommaAfterHeadShift(n: nat, m: nat)
    requires n >= 2 && m % 3 == 0
    ensures CommaAfterHead(n + m) == CommaAfterHead(n)
  {
    assert n + m - 1 == (n - 1) + 3 * (m / 3);
  }

  /** One step of the replacement on a digit string: a comma follows the head exactly when a positive multiple of three digits follows it. */
  lemma ReplaceStepOnDigits(s: string)
    requires AllDigits(s) && |s| >= 1
    ensures SeparatorReplace(s) ==
      [s[0]] + (if CommaAfterHead(|s|) then "," else "") + SeparatorReplace(s[1..])
  {
    MatchOnDigits(s);
  }

  /** On a digit string the global replacement computes the reference grouping. */
  lemma {:induction false} ReplaceIsGrouping(s: string)
    requires AllDigits(s)
    ensures SeparatorReplace(s) == Grouped(s)
    decreases |s|
  {
    if |s| <= 3 {
      ReplaceShort(s);
    } else {
      var p, t := s[..|s| - 3], s[|s| - 3..];
      assert s == p + t;
      ReplaceSplit(p, t);
      ReplaceIsGrouping(p);
      ReplaceShort(t);
      var gs := Chunks(s);
      assert gs[..|gs| - 1] == Chunks(p);
    }
  }

  /** The replacement keeps the first and the last character. */
  lemma {:induction false} ReplaceEnds(s: string)
    requires |s| >= 1
    ensures |SeparatorReplace(s)| >= 1
    ensures SeparatorReplace(s)[0] == s[0]
    ensures SeparatorReplace(s)[|SeparatorReplace(s)| - 1] == s[|s| - 1]
  {
    if |s| == 1 {
      assert !SeparatorMatch(s);
    } else {
      ReplaceEnds(s[1..]);
    }
  }

  /** On any string, deleting every comma from the result gives the input with its commas deleted. */
  lemma ReplaceOnlyInsertsCommas(s: string)
    ensures RemoveCommas(SeparatorReplace(s)) == RemoveCommas(s)
  {
    CommasInsertedRemove(s, SeparatorReplace(s));
  }

  // ---------------------------------------------------------------------------
  // Properties of formatNumber
  // ---------------------------------------------------------------------------

  /** Deleting every comma from the formatted number gives its decimal digits, which read back as the number. */
  lemma FormatNumberDigitsBack(num: nat)
    ensures RemoveCommas(FormatNumber(num)) == DecimalDigits(num)
    ensures ParseDecimal(RemoveCommas(FormatNumber(num))) == num
  {
  }

  /** Two naturals format alike only if they are equal. */
  lemma FormatNumberInjective(m: nat, n: nat)
    ensures FormatNumber(m) == FormatNumber(n) ==> m == n
  {
    FormatNumberDigitsBack(m);
    FormatNumberDigitsBack(n);
  }

  /**
   The formatted number splits on commas into digit groups: the first has one
   to three digits, every later one exactly three, and together they spell the
   decimal digits. It neither starts nor ends with a comma.
   */
  lemma FormatNumberGroups(num: nat)
    ensures var gs := SplitOnCommas(FormatNumber(num));
      && Concat(gs) == DecimalDigits(num)
      && 1 <= |gs[0]| <= 3
      && (forall i :: 1 <= i < |gs| ==> |gs[i]| == 3)
      && (forall i :: 0 <= i < |gs| ==> AllDigits(gs[i]))
    ensures var r := FormatNumber(num); |r| >= 1 && r[0] != ',' && r[|r| - 1] != ','
  {
    var d := DecimalDigits(num);
    GroupedKeepsDigits(d);
    ChunksOfDigits(d);
    ReplaceEnds(d);
  }

  /**
   A text of `L` digits gets exactly `(L - 1) / 3` commas, so the formatted
   number is that much longer than the plain digits.
   */
  lemma FormatNumberCommaCount(num: nat)
    ensures var L := |DecimalDigits(num)|;
      && CountCommas(FormatNumber(num)) == (L - 1) / 3
      && |FormatNumber(num)| == L + (L - 1) / 3
  {
    var d := DecimalDigits(num);
    var r := FormatNumber(num);
    GroupedKeepsDigits(d);
    assert r == Grouped(d);
    assert CountCommas(r) == |Chunks(d)| - 1 == (|d| - 1) / 3;
    CommasAndLength(r);
    assert RemoveCommas(r) == d;
  }

  lemma {:induction false} CommasAndLength(s: string)
    ensures |s| == |RemoveCommas(s)| + CountCommas(s)
  {
    if s != [] {
      CommasAndLength(s[1..]);
    }
  }

  /** A natural below 1000 is printed unchanged; from 1000 on at least one comma is inserted. */
  lemma FormatNumberSmall(num: nat)
    ensures num < 1000 <==> FormatNumber(num) == DecimalDigits(num)
    ensures num >= 1000 ==> CountCommas(FormatNumber(num)) >= 1
  {
    DecimalLength(num, 3);
    assert Pow10(3) == 1000;
    FormatNumberCommaCount(num);
    var d := DecimalDigits(num);
    if |d| <= 3 {
      ReplaceShort(d);
    }
  }

  lemma FormatNumberBelowThousandExamples()
    ensures FormatNumber(0) == "0"
    ensures FormatNumber(999) == "999"
  {
    assert DecimalDigits(999) == "999" by {
      assert DecimalDigits(9) == "9";
      assert DecimalDigits(99) == "99";
    }
    ReplaceShort("999");
  }


  lemma FormatNumberMillionsExample()
    ensures FormatNumber(1234567) == "1,234,567"
  {
    DecimalDigitsOfExample();
    GroupedOfExample();
  }

  lemma GroupedOfExample()
    ensures Grouped("1234567") == "1,234,567"
  {
    assert Chunks("1234567") == ["1", "234", "567"] by {
      assert "1234567"[..4] == "1234" && "1234567"[4..] == "567";
      assert "1234"[..1] == "1" && "1234"[1..] == "234";
    }
    var gs: seq<string> := ["1", "234", "567"];
    assert gs[..2] == ["1", "234"] && ["1", "234"][..1] == ["1"];
    assert JoinCommas(gs) == "1,234,567";
  }

  lemma DecimalDigitsOfExample()
    ensures DecimalDigits(1234567) == "1234567"
  {
    assert DecimalDigits(1) == "1";
    assert DecimalDigits(12) == "12";
    assert DecimalDigits(123) == "123";
    assert DecimalDigits(1234) == "1234";
    assert DecimalDigits(12345) == "12345";
    assert DecimalDigits(123456) == "123456";
  }

  /** A non-digit cuts the digit runs: the text before it is grouped as if it stood alone. */
  lemma {:induction false} ReplaceAtNonDigit(a: string, x: string)
    requires |x| >= 1 && !IsDigit(x[0])
    ensures SeparatorReplace(a + x) == SeparatorReplace(a) + SeparatorReplace(x)
  {
    if a == [] {
      assert a + x == x;
    } else {
      var ax := a + x;
      assert ax[0] == a[0];
      assert ax[1..] == a[1..] + x;
      LeadingDigitsBeforeNonDigit(a[1..], x);
      assert SeparatorMatch(ax) == SeparatorMatch(a);
      ReplaceAtNonDigit(a[1..], x);
    }
  }

  /** A non-digit ends the digit run at the head. */
  lemma {:induction false} LeadingDigitsBeforeNonDigit(b: string, x: string)
    requires |x| >= 1 && !IsDigit(x[0])
    ensures LeadingDigits(b + x) == LeadingDigits(b)
  {
    if b == [] {
      assert b + x == x;
    } else {
      assert (b + x)[0] == b[0];
      assert (b + x)[1..] == b[1..] + x;
      LeadingDigitsBeforeNonDigit(b[1..], x);
    }
  }

  /** Four digits are grouped as one digit, a comma, and three digits. */
  lemma GroupedOfFourDigits(s: string)
    requires |s| == 4
    ensures Grouped(s) == [s[0]] + "," + s[1..]
  {
    var p, t := s[..1], s[1..];
    assert Chunks(s) == Chunks(p) + [t];
    assert Chunks(p) == [p];
    var gs: seq<string> := [p, t];
    assert gs[..1] == [p];
    assert JoinCommas(gs) == p + "," + t;
    assert p == [s[0]];
  }

  /** Four digits get one comma, after the first. */
  lemma ReplaceFourDigits(s: string)
    requires AllDigits(s) && |s| == 4
    ensures SeparatorReplace(s) == [s[0]] + "," + s[1..]
  {
    ReplaceIsGrouping(s);
    GroupedOfFourDigits(s);
  }

  /** Two runs of four digits around a non-digit are grouped separately. */
  lemma ReplaceFourAroundNonDigit(a: string, c: char, b: string)
    requires AllDigits(a) && AllDigits(b) && |a| == 4 && |b| == 4 && !IsDigit(c)
    ensures SeparatorReplace(a + [c] + b) == [a[0]] + "," + a[1..] + [c] + [b[0]] + "," + b[1..]
  {
    var cb := [c] + b;
    assert a + [c] + b == a + cb;
    assert cb[0] == c && cb[1..] == b;
    ReplaceAtNonDigit(a, cb);
    assert SeparatorReplace(cb) == [c] + SeparatorReplace(b);
    ReplaceFourDigits(a);
    ReplaceFourDigits(b);
  }

  /**
   On text that is not a plain digit string the replacement also groups digit
   runs after a decimal point, which is why the model is restricted to naturals.
   */
  lemma ReplaceGroupsFractionDigits(text: string)
    requires text == "1234.5678"
    ensures SeparatorReplace(text) == "1,234.5,678"
  {
    var a, c, b := FractionParts(text);
    ReplaceFourAroundNonDigit(a, c, b);
    FractionPartsGrouped(a, c, b);
  }

  /** The example text is four digits, a point and four digits. */
  lemma FractionParts(text: string) returns (a: string, c: char, b: string)
    requires text == "1234.5678"
    ensures text == a + [c] + b && c == '.'
    ensures a == "1234" && b == "5678"
    ensures AllDigits(a) && AllDigits(b) && |a| == 4 && |b| == 4 && !IsDigit(c)
  {
    a, c, b := text[..4], text[4], text[5..];
    assert text == a + [c] + b;
  }

  lemma FractionPartsGrouped(a: string, c: char, b: string)
    requires a == "1234" && b == "5678" && c == '.'
    ensures [a[0]] + "," + a[1..] + [c] + [b[0]] + "," + b[1..] == "1,234.5,678"
  {
  }
}
