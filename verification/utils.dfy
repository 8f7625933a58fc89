/**
 * Small formatting helpers: the allow-list of printable content types,
 * human-readable sizes, the trimmed view of an object's head metadata, and
 * the column layout used to print listings in a grid.
 */
module Utils {
  import opened Common
  import opened Text

  // ---------------------------------------------------------------------------
  // Content types

  /** The content types that are printed, by prefix. */
  const SafeContentTypePrefixes := ["application/json", "application/xml", "application/yaml", "text/"]

  /** `_is_safe_content_type`: a present, non-empty type starting with an allowed prefix. */
  method IsSafeContentType(ct: Option<string>) returns (safe: bool)
    ensures safe <==> (ct.Some? && ct.value != "" &&
      exists i :: 0 <= i < |SafeContentTypePrefixes| && StartsWith(ct.value, SafeContentTypePrefixes[i]))
  {
    if ct.None? || ct.value == "" {
      return false;
    }
    var i := 0;
    while i < |SafeContentTypePrefixes|
      invariant 0 <= i <= |SafeContentTypePrefixes|
      invariant forall j :: 0 <= j < i ==> !StartsWith(ct.value, SafeContentTypePrefixes[j])
    {
      if StartsWith(ct.value, SafeContentTypePrefixes[i]) {
        return true;
      }
      i := i + 1;
    }
    return false;
  }

  // ---------------------------------------------------------------------------
  // Decimal text

  function DigitChar(d: nat): char
    requires d < 10
  {
    "0123456789"[d]
  }

  predicate IsDigit(c: char) {
    '0' <= c <= '9'
  }

  function DigitValue(c: char): nat
    requires IsDigit(c)
  {
    (c as int - '0' as int) as nat
  }

  /** `str` of a natural number: its decimal digits, without leading zeros. */
  function Digits(n: nat): (r: string)
    ensures |r| >= 1
    ensures forall i :: 0 <= i < |r| ==> IsDigit(r[i])
    ensures r[0] == '0' ==> n == 0
    decreases n
  {
    if n < 10 then [DigitChar(n)]
    else Digits(n / 10) + [DigitChar(n % 10)]
  }

  predicate AllDigits(s: string) {
    forall i :: 0 <= i < |s| ==> IsDigit(s[i])
  }

  /** The number a string of decimal digits denotes. */
  function DecimalValue(s: string): nat
    requires AllDigits(s)
    decreases |s|
  {
    if s == [] then 0
    else DecimalValue(s[..|s| - 1]) * 10 + DigitValue(Last(s))
  }

  /** Reading a number's digits gives the number back. */
  lemma {:induction false} DigitsRoundTrip(n: nat)
    ensures DecimalValue(Digits(n)) == n
    decreases n
  {
    var d := Digits(n);
    if n < 10 {
      DigitCharValue(n);
    } else {
      DigitsRoundTrip(n / 10);
      DigitCharValue(n % 10);
      assert d == Digits(n / 10) + [DigitChar(n % 10)];
      assert d[..|d| - 1] == Digits(n / 10);
      assert Last(d) == DigitChar(n % 10);
      assert DecimalValue(d) == DecimalValue(Digits(n / 10)) * 10 + n % 10;
    }
  }

  lemma DigitCharValue(d: nat)
    requires d < 10
    ensures IsDigit(DigitChar(d)) && DigitValue(DigitChar(d)) == d
  {
  }

  /** `str` of an integer. */
  function IntString(i: int): string {
    if i < 0 then "-" + Digits(-i) else Digits(i)
  }

  /**
   * `int` of a header value: an optional sign and one or more decimal digits
   * (the surrounding whitespace and digit-group underscores Python also accepts
   * are not modelled).
   */
  function ParseInt(s: string): (r: Option<int>)
    ensures r.Some? && s != "" && s[0] != '-' && s[0] != '+' ==> r.value >= 0
  {
    var sign := if s != [] && (s[0] == '-' || s[0] == '+') then s[0] else '+';
    var body := if s != [] && (s[0] == '-' || s[0] == '+') then s[1..] else s;
    if body == [] || !AllDigits(body) then None
    else if sign == '-' then Some(-(DecimalValue(body) as int))
    else Some(DecimalValue(body))
  }

  /** The text `str` gives a number is read back as that number. */
  lemma ParseIntString(i: int)
    ensures ParseInt(IntString(i)) == Some(i)
  {
    if i < 0 {
      var n: nat := -i;
      assert IntString(i) == "-" + Digits(n);
      ParseNegativeString(n);
    } else {
      var n: nat := i;
      assert IntString(i) == Digits(n);
      ParseNaturalString(n);
    }
  }

  lemma ParseNaturalString(n: nat)
    ensures ParseInt(Digits(n)) == Some(n)
  {
    DigitsRoundTrip(n);
    ParseUnsigned(Digits(n));
  }

  lemma ParseNegativeString(n: nat)
    ensures ParseInt("-" + Digits(n)) == Some(-(n as int))
  {
    DigitsRoundTrip(n);
    ParseSigned(Digits(n));
  }

  lemma ParseUnsigned(d: string)
    requires d != [] && AllDigits(d)
    ensures ParseInt(d) == Some(DecimalValue(d) as int)
  {
    assert IsDigit(d[0]);
  }

  lemma ParseSigned(d: string)
    requires d != [] && AllDigits(d)
    ensures ParseInt("-" + d) == Some(-(DecimalValue(d) as int))
  {
    var s := "-" + d;
    assert s[0] == '-';
    assert s[1..] == d;
  }

  // ---------------------------------------------------------------------------
  // Sizes

  const Units := ["B", "KB", "MB", "GB", "TB"]

  function Pow1024(k: nat): (r: nat)
    ensures r >= 1
  {
    if k == 0 then 1 else 1024 * Pow1024(k - 1)
  }

  /**
   * The unit `pretty_size` settles on, trying units from `k` on: the first at
   * which the size, divided by 1024 once per unit passed, is at most 1023,
   * and the last unit otherwise. Division by 1024 is exact, so the comparison
   * is made on the undivided size.
   */
  function UnitFrom(n: int, k: nat): (u: nat)
    requires k < |Units|
    ensures k <= u < |Units|
    ensures u < |Units| - 1 ==> n <= 1023 * Pow1024(u)
    ensures forall j :: k <= j < u ==> n > 1023 * Pow1024(j)
    decreases |Units| - k
  {
    if n <= 1023 * Pow1024(k) || k == |Units| - 1 then k else UnitFrom(n, k + 1)
  }

  /** Rounding `num / den` to the nearest integer, halves to the even one, as Python's `round`. */
  function RoundHalfEven(num: int, den: nat): (r: int)
    requires den > 0
    ensures 2 * (num - r * den) <= den && 2 * (r * den - num) <= den
    ensures 2 * (num - r * den) == den || 2 * (r * den - num) == den ==> r % 2 == 0
  {
    var q := num / den;
    var rem := num % den;
    if 2 * rem < den then q
    else if 2 * rem > den then q + 1
    else if q % 2 == 0 then q
    else q + 1
  }

  /** A size as a rounded count of a unit. */
  datatype Size = Size(count: int, unit: nat)

  /** The count and unit `pretty_size` prints. */
  function Shorten(n: int): (s: Size)
    ensures s.unit < |Units|
    ensures s.unit < |Units| - 1 ==> n <= 1023 * Pow1024(s.unit)
    ensures forall j :: 0 <= j < s.unit ==> n > 1023 * Pow1024(j)
    ensures s.count == RoundHalfEven(n, Pow1024(s.unit))
  {
    var u := UnitFrom(n, 0);
    Size(RoundHalfEven(n, Pow1024(u)), u)
  }

  /** `pretty_size`: the rounded count and its unit, which read back from the text. */
  function PrettySize(n: int): (r: string)
    ensures Split(r, ' ') == [IntString(Shorten(n).count), Units[Shorten(n).unit]]
    ensures ParseInt(Split(r, ' ')[0]) == Some(Shorten(n).count)
  {
    var s := Shorten(n);
    IntStringNoSpace(s.count);
    SplitFirstPart(IntString(s.count), Units[s.unit], ' ');
    assert ' ' !in Units[s.unit];
    SplitNoSep(Units[s.unit], ' ');
    ParseIntString(s.count);
    IntString(s.count) + " " + Units[s.unit]
  }

  /** The decimal text of an integer holds no space. */
  lemma IntStringNoSpace(i: int)
    ensures ' ' !in IntString(i)
  {
    if i < 0 {
      assert IntString(i) == "-" + Digits(-i);
      assert forall k :: 0 <= k < |IntString(i)| ==> IntString(i)[k] != ' ';
    }
  }

  /** Up to 1023 bytes, the size is printed exactly, in bytes. */
  lemma SmallSizesExact(n: nat)
    requires n <= 1023
    ensures PrettySize(n) == Digits(n) + " B"
  {
    assert UnitFrom(n, 0) == 0;
    assert Pow1024(0) == 1;
    assert RoundHalfEven(n, 1) == n;
    assert Shorten(n) == Size(n, 0);
  }

  /**
   * Below terabytes a size shows between 1 and 1023 of its unit: a unit is only
   * left once the count would pass 1023, and the next unit starts above 1023/1024.
   */
  lemma {:induction false} CountInRange(n: int)
    requires 0 < Shorten(n).unit < 4
    ensures 1 <= Shorten(n).count <= 1023
  {
    var s := Shorten(n);
    var d := Pow1024(s.unit);
    assert d == 1024 * Pow1024(s.unit - 1);
    assert n > 1023 * Pow1024(s.unit - 1);
    assert n <= 1023 * d;
  }

  /** One byte short of a mebibyte rounds up to `1 MB`. */
  lemma JustUnderMebibyte()
    ensures Shorten(1024 * 1024 - 1) == Size(1, 2)
  {
    assert Pow1024(2) == 1048576;
    assert UnitFrom(1048575, 0) == 2;
  }

  /** Beyond terabytes the count keeps growing: two pebibytes are `2048 TB`. */
  lemma TwoPebibytes()
    ensures Shorten(2 * 1024 * 1024 * 1024 * 1024 * 1024) == Size(2048, 4)
  {
    assert Pow1024(4) == 1099511627776;
    assert UnitFrom(2251799813685248, 0) == 4;
  }

  // ---------------------------------------------------------------------------
  // Head metadata

  /**
   * An object's head response as far as it is read: its user metadata and its
   * HTTP headers (a missing `Metadata`, `ResponseMetadata` or `HTTPHeaders`
   * member reads as empty).
   */
  datatype HeadResponse = HeadResponse(metadata: map<string, string>, headers: map<string, string>)

  /** The four members kept of a head response. */
  datatype Stripped = Stripped(
    contentLength: string,
    contentType: Option<string>,
    lastModified: Option<string>,
    metadata: map<string, string>)

  /** The `ValueError` of a content length that is not an integer. */
  datatype MalformedLength = MalformedLength(text: string)

  function Header(h: map<string, string>, name: string): Option<string> {
    if name in h then Some(h[name]) else None
  }

  /** The content length a head response declares: absent or empty reads as 0. */
  function ContentLength(head: HeadResponse): (r: Result<int, MalformedLength>)
    ensures Header(head.headers, "content-length").GetOr("") == "" ==> r == Ok(0)
  {
    var text := Header(head.headers, "content-length").GetOr("");
    if text == "" then Ok(0)
    else match ParseInt(text)
      case None => Err(MalformedLength(text))
      case Some(n) => Ok(n)
  }

  /** The content length as shown: the readable size, then the exact count of bytes. */
  function LengthText(n: int): string {
    PrettySize(n) + " (" + IntString(n) + " bytes)"
  }

  /** `strip_s3_metadata`: the readable length, the type and modification headers, and the user metadata. */
  function StripS3Metadata(head: HeadResponse): (r: Result<Stripped, MalformedLength>)
    ensures r.Ok? <==> ContentLength(head).Ok?
    ensures r.Ok? ==>
      && r.value.contentType == Header(head.headers, "content-type")
      && r.value.lastModified == Header(head.headers, "last-modified")
      && r.value.metadata == head.metadata
  {
    match ContentLength(head)
    case Err(e) => Err(e)
    case Ok(n) =>
      Ok(Stripped(LengthText(n), Header(head.headers, "content-type"), Header(head.headers, "last-modified"), head.metadata))
  }

  /** A declared length of `n` bytes is shown as the readable size followed by `(n bytes)`. */
  lemma StripLength(head: HeadResponse, n: nat)
    requires Header(head.headers, "content-length") == Some(Digits(n))
    ensures StripS3Metadata(head) == Ok(Stripped(
      PrettySize(n) + " (" + Digits(n) + " bytes)",
      Header(head.headers, "content-type"),
      Header(head.headers, "last-modified"),
      head.metadata))
  {
    ParseIntString(n);
    assert ParseInt(Digits(n)) == Some(n) by {
      assert IntString(n) == Digits(n);
    }
  }

  /** Without a content length the object is shown as empty. */
  lemma StripMissingLength(head: HeadResponse)
    requires "content-length" !in head.headers
    ensures StripS3Metadata(head).Ok?
    ensures StripS3Metadata(head).value.contentLength == "0 B (0 bytes)"
  {
    assert ContentLength(head) == Ok(0);
    SmallSizesExact(0);
    var zero := Digits(0);
    assert zero == [DigitChar(0)] == "0";
    assert IntString(0) == zero;
    assert PrettySize(0) == "0 B";
    assert LengthText(0) == "0 B" + " (" + "0" + " bytes)";
  }

  // ---------------------------------------------------------------------------
  // Grid layout

  /** The length of the longest string. */
  function Longest(data: seq<string>): (r: nat)
    ensures forall i :: 0 <= i < |data| ==> |data[i]| <= r
    ensures data != [] ==> exists i :: 0 <= i < |data| && |data[i]| == r
    ensures data == [] ==> r == 0
    decreases |data|
  {
    if data == [] then 0
    else
      var init := data[..|data| - 1];
      var m := Longest(init);
      assert forall i :: 0 <= i < |init| ==> data[i] == init[i];
      if |Last(data)| > m then |Last(data)| else m
  }

  /** The width of every cell: the longest item and one space. */
  function CellWidth(data: seq<string>): nat {
    Longest(data) + 1
  }

  /** How many cells fit across `width` columns of terminal. */
  function NumColumns(data: seq<string>, width: nat): nat {
    width / CellWidth(data)
  }

  /** `ljust`: `s` padded with spaces up to `w` characters. */
  function LJust(s: string, w: nat): (r: string)
    ensures |r| == if |s| >= w then |s| else w
    ensures r[..|s|] == s
    ensures forall i :: |s| <= i < |r| ==> r[i] == ' '
  {
    if |s| >= w then s else s + seq(w - |s|, _ => ' ')
  }

  /** How many items column `c` holds: the first `n % cols` columns take one extra. */
  function Heights(n: nat, cols: nat): (h: seq<nat>)
    requires cols > 0
    ensures |h| == cols
    ensures forall c :: 0 <= c < cols ==> h[c] == n / cols + (if c < n % cols then 1 else 0)
  {
    seq(cols, c requires 0 <= c < cols => n / cols + (if c < n % cols then 1 else 0))
  }

  function Sum(xs: seq<nat>): nat
    decreases |xs|
  {
    if xs == [] then 0 else Sum(xs[..|xs| - 1]) + Last(xs)
  }

  /** The index of the first item of column `c`. */
  function Start(h: seq<nat>, c: nat): nat
    requires c <= |h|
  {
    Sum(h[..c])
  }

  lemma {:induction false} SumOfHeights(n: nat, cols: nat, c: nat)
    requires 0 < cols && c <= cols
    ensures Sum(Heights(n, cols)[..c]) == c * (n / cols) + (if c < n % cols then c else n % cols)
    decreases c
  {
    if c > 0 {
      var h := Heights(n, cols);
      var q := n / cols;
      assert h[..c][..c - 1] == h[..c - 1];
      assert Sum(h[..c]) == Sum(h[..c - 1]) + h[c - 1];
      SumOfHeights(n, cols, c - 1);
      assert c * q == (c - 1) * q + q;
    }
  }

  /** The column heights add up to the number of items. */
  lemma HeightsTotal(n: nat, cols: nat)
    requires cols > 0
    ensures Sum(Heights(n, cols)) == n
  {
    SumOfHeights(n, cols, cols);
    assert Heights(n, cols)[..cols] == Heights(n, cols);
  }

  /** Column heights never grow left to right and differ by at most one. */
  lemma HeightsBalanced(n: nat, cols: nat)
    requires cols > 0
    ensures forall a, b :: 0 <= a <= b < cols ==>
      Heights(n, cols)[b] <= Heights(n, cols)[a] <= Heights(n, cols)[b] + 1
  {
  }

  /** How many of the heights exceed `j`: the length of row `j`. */
  function Reaching(h: seq<nat>, j: nat): (r: nat)
    ensures r <= |h|
    decreases |h|
  {
    if h == [] then 0 else Reaching(h[..|h| - 1], j) + (if Last(h) > j then 1 else 0)
  }

  /** Where every earlier column reaches row `j`, row `j` has one cell per column. */
  lemma {:induction false} ReachingAll(h: seq<nat>, j: nat)
    requires forall c :: 0 <= c < |h| ==> h[c] > j
    ensures Reaching(h, j) == |h|
    decreases |h|
  {
    if h != [] {
      ReachingAll(h[..|h| - 1], j);
    }
  }

  /** Row `j`, cell `k`: the item placed there, column-major. */
  predicate ColumnMajor(rows: seq<seq<nat>>, h: seq<nat>)
  {
    forall j, k :: 0 <= j < |rows| && 0 <= k < |rows[j]| ==> k < |h| && rows[j][k] == Start(h, k) + j
  }

  lemma StartStep(h: seq<nat>, c: nat)
    requires c < |h|
    ensures Start(h, c + 1) == Start(h, c) + h[c]
  {
    assert h[..c + 1][..c] == h[..c];
  }

  /**
   * The layout loops of `print_grid`, on item indices: the columns are filled
   * in turn, column `c` taking its height's worth of consecutive items, one
   * per row from the top.
   */
  method GridRows(n: nat, cols: nat) returns (rows: seq<seq<nat>>)
    requires cols > 1
    ensures |rows| == Heights(n, cols)[0]
    ensures ColumnMajor(rows, Heights(n, cols))
    ensures forall j :: 0 <= j < |rows| ==> |rows[j]| == Reaching(Heights(n, cols), j)
  {
    var h := Heights(n, cols);
    HeightsBalanced(n, cols);
    rows := seq(h[0], _ => []);
    var i := 0;
    var c := 0;
    while c < cols
      invariant 0 <= c <= cols
      invariant i == Start(h, c)
      invariant |rows| == h[0]
      invariant ColumnMajor(rows, h)
      invariant forall j :: 0 <= j < |rows| ==> |rows[j]| == Reaching(h[..c], j)
    {
      rows := FillColumn(rows, h, c, i);
      StartStep(h, c);
      i := i + h[c];
      c := c + 1;
    }
    assert h[..cols] == h;
  }

  /** Column `c` of the layout: its items, from `start` on, go one per row from the top. */
  method FillColumn(rows: seq<seq<nat>>, h: seq<nat>, c: nat, start: nat) returns (rows': seq<seq<nat>>)
    requires c < |h| && |rows| == h[0] && start == Start(h, c)
    requires forall a, b :: 0 <= a <= b < |h| ==> h[b] <= h[a]
    requires ColumnMajor(rows, h)
    requires forall j :: 0 <= j < |rows| ==> |rows[j]| == Reaching(h[..c], j)
    ensures |rows'| == |rows|
    ensures ColumnMajor(rows', h)
    ensures forall j :: 0 <= j < |rows'| ==> |rows'[j]| == Reaching(h[..c + 1], j)
  {
    rows' := rows;
    var j := 0;
    while j < h[c]
      invariant 0 <= j <= h[c]
      invariant |rows'| == h[0]
      invariant ColumnMajor(rows', h)
      invariant forall r :: 0 <= r < j ==> |rows'[r]| == Reaching(h[..c + 1], r)
      invariant forall r :: j <= r < |rows'| ==> |rows'[r]| == Reaching(h[..c], r)
    {
      RowLength(h, c, j);
      rows' := rows'[j := rows'[j] + [start + j]];
      j := j + 1;
    }
    forall r | h[c] <= r < |rows'|
      ensures |rows'[r]| == Reaching(h[..c + 1], r)
    {
      assert h[..c + 1][..c] == h[..c];
    }
  }

  /** Before column `c` is filled, a row it reaches holds exactly `c` cells. */
  lemma RowLength(h: seq<nat>, c: nat, j: nat)
    requires c < |h| && j < h[c]
    requires forall a, b :: 0 <= a <= b < |h| ==> h[b] <= h[a]
    ensures Reaching(h[..c], j) == c
    ensures Reaching(h[..c + 1], j) == c + 1
  {
    ReachingAll(h[..c], j);
    assert h[..c + 1][..c] == h[..c];
  }

  /** Heights that never grow left to right. */
  predicate NonIncreasing(h: seq<nat>) {
    forall a, b :: 0 <= a <= b < |h| ==> h[b] <= h[a]
  }

  /** Where no column from `k` on reaches row `j`, row `j` has at most `k` cells. */
  lemma {:induction false} ReachingAtMost(h: seq<nat>, j: nat, k: nat)
    requires forall c :: k <= c < |h| ==> h[c] <= j
    ensures Reaching(h, j) <= k
    decreases |h|
  {
    if h != [] && |h| > k {
      ReachingAtMost(h[..|h| - 1], j, k);
    }
  }

  /** With non-increasing heights, cell `k` of row `j` lies inside column `k`. */
  lemma ReachingBelow(h: seq<nat>, j: nat, k: nat)
    requires NonIncreasing(h) && k < Reaching(h, j)
    ensures k < |h| && j < h[k]
  {
    if k >= |h| || h[k] <= j {
      ReachingAtMost(h, j, k);
    }
  }

  /** Prefix sums only grow. */
  lemma {:induction false} StartMonotone(h: seq<nat>, a: nat, b: nat)
    requires a <= b <= |h|
    ensures Start(h, a) <= Start(h, b)
    decreases b - a
  {
    if a < b {
      StartStep(h, a);
      StartMonotone(h, a + 1, b);
    }
  }

  /** Every cell of the layout names an item: its index is below the total. */
  lemma CellInRange(h: seq<nat>, j: nat, k: nat, rows: seq<seq<nat>>)
    requires NonIncreasing(h) && ColumnMajor(rows, h)
    requires j < |rows| && k < |rows[j]| && |rows[j]| == Reaching(h, j)
    ensures rows[j][k] < Sum(h)
  {
    ReachingBelow(h, j, k);
    StartStep(h, k);
    StartMonotone(h, k + 1, |h|);
    assert h[..|h|] == h;
  }

  /**
   * Every item sits in exactly one column, at the row given by its distance from
   * the column's first item: the columns split the items into consecutive runs.
   */
  lemma EveryItemOnce(n: nat, cols: nat, i: nat)
    requires cols > 0 && i < n
    ensures var h := Heights(n, cols);
      exists c :: 0 <= c < cols && Start(h, c) <= i < Start(h, c) + h[c]
    ensures var h := Heights(n, cols);
      forall c1, c2 :: (0 <= c1 < cols && 0 <= c2 < cols
        && Start(h, c1) <= i < Start(h, c1) + h[c1]
        && Start(h, c2) <= i < Start(h, c2) + h[c2]) ==> c1 == c2
  {
    var h := Heights(n, cols);
    HeightsTotal(n, cols);
    assert h[..cols] == h;
    var c := 0;
    assert h[..0] == [];
    while Start(h, c) + h[c] <= i
      invariant 0 <= c < cols
      invariant Start(h, c) <= i
      decreases cols - c
    {
      StartStep(h, c);
      c := c + 1;
    }
    forall c1, c2 | 0 <= c1 < cols && 0 <= c2 < cols
        && Start(h, c1) <= i < Start(h, c1) + h[c1]
        && Start(h, c2) <= i < Start(h, c2) + h[c2]
      ensures c1 == c2
    {
      if c1 < c2 {
        StartStep(h, c1);
        StartMonotone(h, c1 + 1, c2);
      } else if c2 < c1 {
        StartStep(h, c2);
        StartMonotone(h, c2 + 1, c1);
      }
    }
  }

  /** The printed cell `k` of a line: the `k`-th stretch of the cell width. */
  function CellText(line: string, k: nat, w: nat): string
    requires (k + 1) * w <= |line|
  {
    line[k * w..(k + 1) * w]
  }

  /** One printed row: the given items, each padded to the cell width, side by side. */
  method RenderRow(data: seq<string>, w: nat, cells: seq<nat>) returns (line: string)
    requires forall m :: 0 <= m < |cells| ==> cells[m] < |data| && |data[cells[m]]| <= w
    ensures |line| == |cells| * w
    ensures forall m :: 0 <= m < |cells| ==> CellText(line, m, w) == LJust(data[cells[m]], w)
  {
    line := "";
    var k := 0;
    while k < |cells|
      invariant 0 <= k <= |cells|
      invariant |line| == k * w
      invariant forall m :: 0 <= m < k ==> CellText(line, m, w) == LJust(data[cells[m]], w)
    {
      var cell := LJust(data[cells[k]], w);
      AppendCell(line, cell, k, w);
      line := line + cell;
      k := k + 1;
    }
  }

  lemma MulStep(m: nat, k: nat, w: nat)
    requires m < k
    ensures (m + 1) * w <= k * w
  {
    assert k * w == (m + 1) * w + (k - m - 1) * w;
  }

  /** Appending one cell keeps the earlier cells and puts the new one last. */
  lemma AppendCell(line: string, cell: string, k: nat, w: nat)
    requires |line| == k * w && |cell| == w
    ensures |line + cell| == (k + 1) * w
    ensures CellText(line + cell, k, w) == cell
    ensures forall m :: 0 <= m < k ==> CellText(line + cell, m, w) == CellText(line, m, w)
  {
    assert (k + 1) * w == k * w + w;
    forall m | 0 <= m < k
      ensures CellText(line + cell, m, w) == CellText(line, m, w)
    {
      MulStep(m, k, w);
      assert m * w <= (m + 1) * w;
    }
  }

  /** Line `j` of a grid: one padded cell for each column reaching row `j`, column-major. */
  predicate GridLine(line: string, data: seq<string>, h: seq<nat>, w: nat, j: nat) {
    && |line| == Reaching(h, j) * w
    && forall k :: 0 <= k < Reaching(h, j) ==>
         k < |h| && Start(h, k) + j < |data| && CellText(line, k, w) == LJust(data[Start(h, k) + j], w)
  }

  /** The cells of row `j` name items, each no wider than the cell. */
  lemma RowCells(data: seq<string>, h: seq<nat>, j: nat, rows: seq<seq<nat>>)
    requires NonIncreasing(h) && ColumnMajor(rows, h) && Sum(h) == |data|
    requires j < |rows| && |rows[j]| == Reaching(h, j)
    ensures forall m :: 0 <= m < |rows[j]| ==> rows[j][m] < |data| && |data[rows[j][m]]| <= CellWidth(data)
  {
    forall m | 0 <= m < |rows[j]|
      ensures rows[j][m] < |data|
    {
      CellInRange(h, j, m, rows);
    }
  }

  /** A row rendered from the layout's cells is the grid's line. */
  lemma RowIsGridLine(line: string, data: seq<string>, h: seq<nat>, w: nat, j: nat, rows: seq<seq<nat>>)
    requires ColumnMajor(rows, h) && j < |rows| && |rows[j]| == Reaching(h, j)
    requires forall m :: 0 <= m < |rows[j]| ==> rows[j][m] < |data|
    requires |line| == |rows[j]| * w
    requires forall m :: 0 <= m < |rows[j]| ==> CellText(line, m, w) == LJust(data[rows[j][m]], w)
    ensures GridLine(line, data, h, w, j)
  {
  }

  /**
   * The layout as printed: with at most one column every item on its own line,
   * else row `j` holds, cell by cell, the `j`-th item of each column that
   * reaches that far, padded to the cell width.
   */
  method PrintGrid(data: seq<string>, width: nat) returns (lines: seq<string>)
    ensures NumColumns(data, width) <= 1 ==> lines == data
    ensures NumColumns(data, width) > 1 ==>
      var h := Heights(|data|, NumColumns(data, width));
      && |lines| == h[0]
      && forall j :: 0 <= j < |lines| ==> GridLine(lines[j], data, h, CellWidth(data), j)
  {
    var cols := NumColumns(data, width);
    if cols <= 1 {
      return data;
    }
    var w := CellWidth(data);
    var h := Heights(|data|, cols);
    HeightsTotal(|data|, cols);
    HeightsBalanced(|data|, cols);
    var rows := GridRows(|data|, cols);
    lines := [];
    var j := 0;
    while j < |rows|
      invariant 0 <= j <= |rows|
      invariant |lines| == j
      invariant forall r :: 0 <= r < j ==> GridLine(lines[r], data, h, w, r)
    {
      RowCells(data, h, j, rows);
      var line := RenderRow(data, w, rows[j]);
      RowIsGridLine(line, data, h, w, j, rows);
      lines := lines + [line];
      j := j + 1;
    }
  }
}
