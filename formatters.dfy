/**
 * The value formatters of src/traits/ValueFormatters.php: pure string
 * functions. PHP works on bytes; every character these functions look at
 * is ASCII, so on UTF-8 text the byte and character views agree.
 */
module ValueFormatters {
  import opened Php
  import opened PhpStrings

  /** The characters at which `formatTrimmed` cuts. */
  predicate IsCut(c: char) {
    c == '.' || c == ',' || c == '#'
  }

  /**
   * `formatTrimmed`: replace '.' and ',' by '#', then keep what stands
   * before the first '#', or the original value when there is none.
   */
  function FormatTrimmed(val: string): (r: string)
    ensures |r| <= |val| && r == val[..|r|]
    ensures forall i :: 0 <= i < |r| ==> !IsCut(r[i])
    ensures |r| < |val| ==> IsCut(val[|r|])
  {
    var foo := ReplaceChar(ReplaceChar(val, '.', '#'), ',', '#');
    assert forall i :: 0 <= i < |val| ==> (foo[i] == '#' <==> IsCut(val[i]));
    assert forall i :: 0 <= i < |val| && foo[i] != '#' ==> foo[i] == val[i];
    match StrPos(foo, '#')
    case None =>
      assert forall i :: 0 <= i < |val| ==> foo[i] in foo;
      val
    case Some(p) =>
      assert forall i :: 0 <= i < p ==> foo[..p][i] in foo[..p];
      assert foo[..p] == val[..p];
      foo[..p]
  }

  /** A value without '.', ',' or '#' comes back unchanged, so trimming twice is trimming once. */
  lemma FormatTrimmedIdempotent(val: string)
    ensures (forall i :: 0 <= i < |val| ==> !IsCut(val[i])) ==> FormatTrimmed(val) == val
    ensures FormatTrimmed(FormatTrimmed(val)) == FormatTrimmed(val)
  {
  }

  /** `trim($s) === ''` exactly when every character is one that trim strips. */
  lemma {:induction false} TrimEmpty(s: string)
    ensures Trim(s) == "" <==> forall i :: 0 <= i < |s| ==> IsTrimChar(s[i])
  {
    LTrimEmpty(s);
    var l := LTrim(s);
    RTrimEmpty(l);
  }

  lemma {:induction false} LTrimEmpty(s: string)
    ensures LTrim(s) == "" <==> forall i :: 0 <= i < |s| ==> IsTrimChar(s[i])
    ensures LTrim(s) != "" ==> !IsTrimChar(LTrim(s)[0])
  {
    if s != [] && IsTrimChar(s[0]) {
      LTrimEmpty(s[1..]);
      assert forall i :: 1 <= i < |s| ==> s[i] == s[1..][i - 1];
    }
  }

  lemma {:induction false} RTrimEmpty(s: string)
    requires s != "" ==> !IsTrimChar(s[0])
    ensures RTrim(s) == "" <==> s == ""
  {
    if s != [] && IsTrimChar(s[|s| - 1]) {
      RTrimEmpty(s[..|s| - 1]);
    }
  }

  /** `formatSqm`: null for a blank value, otherwise the untrimmed value and " m²". */
  function FormatSqm(val: string): (r: Option<string>)
    ensures r.None? <==> forall i :: 0 <= i < |val| ==> IsTrimChar(val[i])
    ensures r.Some? ==> r.value == val + " m²"
  {
    TrimEmpty(val);
    if Trim(val) != "" then Some(val + " m²") else None
  }

  /** The contract of `formatTrimmed` determines its result: the prefix before the first cut. */
  lemma FormatTrimmedAt(val: string, n: nat)
    requires n <= |val|
    requires forall i :: 0 <= i < n ==> !IsCut(val[i])
    requires n < |val| ==> IsCut(val[n])
    ensures FormatTrimmed(val) == val[..n]
  {
  }

  /** "123,00" trims to "123", which formats as "123 m²". */
  lemma TrimmedSqmExample(v: string)
    requires v == "123,00"
    ensures FormatSqm(FormatTrimmed(v)) == Some("123 m²")
  {
    FormatTrimmedAt(v, 3);
    var t := v[..3];
    assert !IsTrimChar(t[0]);
    assert t + " m²" == "123 m²";
  }

  /** ",5" trims to "", which formats as null. */
  lemma TrimmedSqmBlankExample(v: string)
    requires v == ",5"
    ensures FormatSqm(FormatTrimmed(v)) == None
  {
    FormatTrimmedAt(v, 0);
  }

  predicate IsDigit(c: char) {
    '0' <= c <= '9'
  }

  predicate IsDigits(s: string) {
    forall i :: 0 <= i < |s| ==> IsDigit(s[i])
  }

  /** The decimal value of a digit string as PHP's number_format reads it: leading zeros dropped. */
  function StripLeadingZeros(s: string): (r: string)
    requires |s| > 0
    ensures 0 < |r| <= |s| && r == s[|s| - |r|..]
    ensures |r| > 1 ==> r[0] != '0'
    ensures forall i :: 0 <= i < |s| - |r| ==> s[i] == '0'
    ensures IsDigits(s) ==> IsDigits(r)
  {
    if |s| > 1 && s[0] == '0' then StripLeadingZeros(s[1..]) else s
  }

  /** Digits grouped in threes from the right, separated by '.'. */
  function GroupThousands(d: string): string
    decreases |d|
  {
    if |d| <= 3 then d else GroupThousands(d[..|d| - 3]) + "." + d[|d| - 3..]
  }

  /** A run of 1 to 3 digits, then groups of a '.' and 3 digits. */
  predicate WellGrouped(s: string)
    decreases |s|
  {
    if |s| <= 3 then |s| > 0 && IsDigits(s)
    else |s| > 4 && s[|s| - 4] == '.' && IsDigits(s[|s| - 3..]) && WellGrouped(s[..|s| - 4])
  }

  /** Every character except '.' in order. */
  function RemoveDots(s: string): string {
    if s == [] then [] else (if s[0] == '.' then [] else [s[0]]) + RemoveDots(s[1..])
  }

  lemma {:induction false} RemoveDotsAppend(a: string, b: string)
    ensures RemoveDots(a + b) == RemoveDots(a) + RemoveDots(b)
  {
    if a == [] {
      assert a + b == b;
    } else {
      assert (a + b)[1..] == a[1..] + b;
      RemoveDotsAppend(a[1..], b);
    }
  }

  lemma {:induction false} RemoveDotsDigits(s: string)
    requires IsDigits(s)
    ensures RemoveDots(s) == s
  {
    if s != [] {
      RemoveDotsDigits(s[1..]);
    }
  }

  lemma RemoveDotsSeparator(lo: string)
    requires IsDigits(lo)
    ensures RemoveDots("." + lo) == lo
  {
    var tail := "." + lo;
    assert tail[0] == '.' && tail[1..] == lo;
    RemoveDotsDigits(lo);
  }

  /** Grouping is well formed and removing the separators gives the digits back. */
  lemma GroupThousandsSpec(d: string)
    requires |d| > 0 && IsDigits(d)
    ensures WellGrouped(GroupThousands(d))
    ensures RemoveDots(GroupThousands(d)) == d
  {
    GroupThousandsWellGrouped(d);
    GroupThousandsRemoveDots(d);
  }

  lemma {:induction false} GroupThousandsWellGrouped(d: string)
    requires |d| > 0 && IsDigits(d)
    ensures WellGrouped(GroupThousands(d))
    decreases |d|
  {
    if |d| > 3 {
      var hi, lo := d[..|d| - 3], d[|d| - 3..];
      GroupThousandsWellGrouped(hi);
      var g := GroupThousands(hi);
      var s := g + "." + lo;
      assert GroupThousands(d) == s;
      assert s[..|s| - 4] == g;
      assert s[|s| - 3..] == lo;
      assert s[|s| - 4] == '.';
    }
  }

  lemma GroupThousandsSplit(d: string)
    requires |d| > 3
    ensures GroupThousands(d) == GroupThousands(d[..|d| - 3]) + ("." + d[|d| - 3..])
  {
  }

  lemma {:induction false} GroupThousandsRemoveDots(d: string)
    requires IsDigits(d)
    ensures RemoveDots(GroupThousands(d)) == d
    decreases |d|
  {
    if |d| <= 3 {
      RemoveDotsDigits(d);
    } else {
      var hi, lo := d[..|d| - 3], d[|d| - 3..];
      assert IsDigits(hi) && IsDigits(lo) && hi + lo == d;
      GroupThousandsRemoveDots(hi);
      GroupThousandsSplit(d);
      RemoveDotsAppend(GroupThousands(hi), "." + lo);
      RemoveDotsSeparator(lo);
    }
  }

  /**
   * `formatPrice` for a value made of at most 15 decimal digits (so that
   * number_format's float conversion is exact): the grouped integer part,
   * two zero decimals after ',', and the euro sign.
   */
  function FormatPrice(val: string): (r: string)
    requires 0 < |val| <= 15 && IsDigits(val)
    ensures |r| >= 5 && r[|r| - 5..] == ",00 €"
    ensures WellGrouped(r[..|r| - 5]) && RemoveDots(r[..|r| - 5]) == StripLeadingZeros(val)
  {
    var d := StripLeadingZeros(val);
    GroupThousandsSpec(d);
    var g := GroupThousands(d);
    assert (g + ",00 €")[..|g + ",00 €"| - 5] == g;
    g + ",00 €"
  }

  lemma FormatPriceExample()
    ensures FormatPrice("250000") == "250.000,00 €"
    ensures FormatPrice("0") == "0,00 €"
  {
    assert StripLeadingZeros("250000") == "250000";
    assert "250000"[..3] == "250" && "250000"[3..] == "000";
    assert GroupThousands("250000") == "250" + "." + "000" == "250.000";
    assert "250.000" + ",00 €" == "250.000,00 €";
    assert StripLeadingZeros("0") == "0" && GroupThousands("0") == "0";
    assert "0" + ",00 €" == "0,00 €";
  }
}
