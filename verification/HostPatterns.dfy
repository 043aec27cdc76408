/**
 Host patterns: literal text, one bracketed list of numeric ranges, literal text.
 Strings are sequences of characters; a bound that parses is ASCII, so its width
 is the same in bytes.
 */
module HostPatterns {
  import opened Wrappers

  const MAX_EXPANSION: nat := 65_536
  const U32_MAX: nat := 0xFFFF_FFFF
  const USIZE_MAX: nat := 0xFFFF_FFFF_FFFF_FFFF

  datatype ExpandError =
    | StrayClose
    | CloseBeforeOpen
    | NeverClosed
    | ManyRanges
    | EmptyRange
    | Stride(item: string)
    | Incomplete(item: string)
    | NotANumber(bound: string)
    | CountsDown(item: string)
    | TooMany

  // ----- numbers as text -----

  predicate IsDigit(c: char) {
    '0' <= c <= '9'
  }

  predicate AllDigits(s: string) {
    forall i :: 0 <= i < |s| ==> IsDigit(s[i])
  }

  function Digit(d: nat): (c: char)
    requires d < 10
    ensures IsDigit(c) && (c as int - '0' as int) == d
  {
    (d + '0' as int) as char
  }

  function Value(s: string): nat
    requires AllDigits(s)
  {
    if s == "" then 0
    else 10 * Value(s[..|s| - 1]) + (s[|s| - 1] as int - '0' as int)
  }

  /** A number in decimal, with no leading zero. */
  function Decimal(n: nat): string {
    if n < 10 then [Digit(n)] else Decimal(n / 10) + [Digit(n % 10)]
  }

  function Zeros(k: nat): string {
    seq(k, _ => '0')
  }

  /** A number in decimal, with zeros in front of it up to `width`. */
  function Pad(n: nat, width: nat): string {
    var d := Decimal(n);
    Zeros(if |d| < width then width - |d| else 0) + d
  }

  lemma {:induction false} ValueOfDecimal(n: nat)
    ensures AllDigits(Decimal(n)) && Value(Decimal(n)) == n
    ensures n > 0 ==> Decimal(n)[0] != '0'
  {
    if n >= 10 {
      ValueOfDecimal(n / 10);
      assert Decimal(n)[..|Decimal(n)| - 1] == Decimal(n / 10);
    }
  }

  lemma {:induction false} ValueIgnoresZeros(k: nat, s: string)
    requires AllDigits(s)
    ensures AllDigits(Zeros(k) + s) && Value(Zeros(k) + s) == Value(s)
    decreases k + |s|
  {
    var t := Zeros(k) + s;
    if s != "" {
      ValueIgnoresZeros(k, s[..|s| - 1]);
      assert t[..|t| - 1] == Zeros(k) + s[..|s| - 1];
    } else if k > 0 {
      ValueIgnoresZeros(k - 1, "");
      assert t[..|t| - 1] == Zeros(k - 1) + "";
    }
  }

  /** Reading a padded number gives it back. */
  lemma ValueOfPad(n: nat, width: nat)
    ensures AllDigits(Pad(n, width)) && Value(Pad(n, width)) == n
    ensures |Pad(n, width)| >= width
  {
    ValueOfDecimal(n);
    var d := Decimal(n);
    ValueIgnoresZeros(if |d| < width then width - |d| else 0, d);
  }

  lemma {:induction false} PadLastDigit(n: nat, width: nat)
    requires width > 1
    ensures Pad(n, width) == Pad(n / 10, width - 1) + [Digit(n % 10)]
  {
    if n < 10 {
      assert Decimal(n / 10) == [Digit(0)];
      assert Zeros(width - 1) == Zeros(width - 2) + ['0'];
    }
  }

  /** Padding a number to the width it was written in gives the text back. */
  lemma {:induction false} PadOfValue(s: string)
    requires AllDigits(s) && s != ""
    ensures Pad(Value(s), |s|) == s
    decreases |s|
  {
    var front, last := s[..|s| - 1], s[|s| - 1];
    if front == "" {
      assert Value(front) == 0;
    } else {
      PadOfValue(front);
      PadLastDigit(Value(s), |s|);
      assert Value(s) / 10 == Value(front);
    }
  }

  /** A bound as `u32` reads it: decimal digits, after a plus sign if there is one. */
  function ParseBound(bound: string): (r: Option<nat>)
    ensures r.Some? ==> bound != "" && r.value <= U32_MAX
  {
    var digits := if |bound| > 1 && bound[0] == '+' then bound[1..] else bound;
    if digits == "" || !AllDigits(digits) || Value(digits) > U32_MAX then None else Some(Value(digits))
  }

  /** The width a bound is written in gives its text back exactly when it has no plus sign. */
  lemma BoundRoundTrips(bound: string)
    requires ParseBound(bound).Some?
    ensures Pad(ParseBound(bound).value, |bound|) == bound <==> bound[0] != '+'
  {
    if bound[0] == '+' {
      ValueOfPad(ParseBound(bound).value, |bound|);
      assert !AllDigits(bound);
    } else {
      PadOfValue(bound);
    }
  }

  // ----- the pieces of a pattern -----

  function IndexOf(s: string, c: char): (r: Option<nat>)
    ensures r.Some? ==> r.value < |s| && s[r.value] == c && c !in s[..r.value]
    ensures r.None? ==> c !in s
  {
    if s == "" then None
    else if s[0] == c then Some(0)
    else
      var r := IndexOf(s[1..], c);
      if r.None? then None
      else
        assert s[..r.value + 1] == [s[0]] + s[1..][..r.value];
        Some(r.value + 1)
  }

  /** The pieces between separators; always at least one. */
  function SplitOn(s: string, c: char): (r: seq<string>)
    ensures r != []
    decreases |s|
  {
    var at := IndexOf(s, c);
    if at.None? then [s] else [s[..at.value]] + SplitOn(s[at.value + 1..], c)
  }

  function JoinWith(pieces: seq<string>, c: char): string {
    if pieces == [] then ""
    else if |pieces| == 1 then pieces[0]
    else pieces[0] + [c] + JoinWith(pieces[1..], c)
  }

  /** Splitting loses nothing: the pieces, joined again, are the text, and hold no separator. */
  lemma {:induction false} SplitOnIsExact(s: string, c: char)
    ensures JoinWith(SplitOn(s, c), c) == s
    ensures forall k :: 0 <= k < |SplitOn(s, c)| ==> c !in SplitOn(s, c)[k]
    decreases |s|
  {
    var at := IndexOf(s, c);
    if at.Some? {
      var rest := s[at.value + 1..];
      SplitOnIsExact(rest, c);
      assert SplitOn(s, c)[1..] == SplitOn(rest, c);
      CutAt(s, at.value, [c]);
    }
  }

  lemma IndexOfFirst(before: string, c: char, rest: string)
    requires c !in before
    ensures IndexOf(before + [c] + rest, c) == Some(|before|)
  {
    var s := before + [c] + rest;
    assert s[|before|] == c;
    var at := IndexOf(s, c).value;
    assert forall i :: 0 <= i < at ==> s[..at][i] == s[i] != c;
    assert forall i :: 0 <= i < |before| ==> s[i] == before[i] != c;
  }

  lemma IndexOfMore(s: string, more: string, c: char)
    requires IndexOf(s, c).Some?
    ensures IndexOf(s + more, c) == IndexOf(s, c)
  {
    var at := IndexOf(s, c).value;
    IndexOfFirst(s[..at], c, s[at + 1..] + more);
    assert s + more == s[..at] + [c] + (s[at + 1..] + more);
  }

  /** The same pieces, the last one longer by a character. */
  function LongerLast(pieces: seq<string>, d: char): seq<string>
    requires pieces != []
  {
    pieces[..|pieces| - 1] + [pieces[|pieces| - 1] + [d]]
  }

  lemma LongerLastAfter(first: string, pieces: seq<string>, d: char)
    requires pieces != []
    ensures LongerLast([first] + pieces, d) == [first] + LongerLast(pieces, d)
  {
    var all := [first] + pieces;
    assert all[..|all| - 1] == [first] + pieces[..|pieces| - 1];
  }

  /** A character that separates nothing belongs to the last piece. */
  lemma {:induction false} SplitOneMore(s: string, c: char, d: char)
    requires d != c
    ensures SplitOn(s + [d], c) == LongerLast(SplitOn(s, c), d)
    decreases |s|
  {
    var at := IndexOf(s, c);
    if at.None? {
      assert c !in s + [d];
      assert LongerLast([s], d) == [s + [d]];
    } else {
      IndexOfMore(s, [d], c);
      CutInMore(s, at.value, d);
      SplitOneMore(s[at.value + 1..], c, d);
      LongerLastAfter(s[..at.value], SplitOn(s[at.value + 1..], c), d);
    }
  }

  lemma SplitOnlyEnd(s: string, c: char)
    requires c !in s
    ensures SplitOn(s + [c], c) == [s] + [""]
  {
    IndexOfFirst(s, c, "");
    assert s + [c] + "" == s + [c];
    assert (s + [c])[|s| + 1..] == "" && (s + [c])[..|s|] == s;
  }

  lemma CutInMore(s: string, at: nat, c: char)
    requires at < |s|
    ensures (s + [c])[at + 1..] == s[at + 1..] + [c] && (s + [c])[..at] == s[..at]
  {
  }

  lemma Regroup(a: seq<string>, b: seq<string>, c: seq<string>)
    ensures a + (b + c) == a + b + c
  {
  }

  /** A separator at the end begins an empty piece. */
  lemma {:induction false} SplitEnd(s: string, c: char)
    ensures SplitOn(s + [c], c) == SplitOn(s, c) + [""]
    decreases |s|
  {
    var at := IndexOf(s, c);
    if at.None? {
      SplitOnlyEnd(s, c);
    } else {
      IndexOfMore(s, [c], c);
      SplitEnd(s[at.value + 1..], c);
      CutInMore(s, at.value, c);
      Regroup([s[..at.value]], SplitOn(s[at.value + 1..], c), [""]);
    }
  }

  // ----- what a pattern denotes -----

  /** One item of a list: a number, or two with a dash between, and the width the first is written in. */
  datatype Range = Range(start: nat, end: nat, width: nat)

  function ItemRange(item: string): (r: Result<Range, ExpandError>)
    ensures r.Success? ==> r.value.start <= r.value.end <= U32_MAX
  {
    var dash := IndexOf(item, '-');
    if dash.None? then BoundsRange(item, item, item)
    else
      var low, high := item[..dash.value], item[dash.value + 1..];
      if '-' in high then Failure(Stride(item))
      else if low == "" || high == "" then Failure(Incomplete(item))
      else BoundsRange(item, low, high)
  }

  function BoundsRange(item: string, low: string, high: string): (r: Result<Range, ExpandError>)
    ensures r.Success? ==> r.value.start <= r.value.end <= U32_MAX
  {
    if ParseBound(low).None? then Failure(NotANumber(low))
    else if ParseBound(high).None? then Failure(NotANumber(high))
    else if ParseBound(low).value > ParseBound(high).value then Failure(CountsDown(item))
    else Success(Range(ParseBound(low).value, ParseBound(high).value, |low|))
  }

  function Size(r: Range): nat
    requires r.start <= r.end
  {
    r.end - r.start + 1
  }

  /** Adding as `usize` does, never past its top. */
  function SaturatingAdd(a: nat, b: nat): nat {
    if a + b <= USIZE_MAX then a + b else USIZE_MAX
  }

  /** The ranges of a list, after `total` names are already spoken for. */
  function Ranges(items: seq<string>, total: nat): Result<seq<Range>, ExpandError> {
    if items == [] then Success([])
    else match ItemRange(items[0])
      case Failure(error) => Failure(error)
      case Success(range) =>
        var sum := SaturatingAdd(total, Size(range));
        if sum > MAX_EXPANSION then Failure(TooMany)
        else match Ranges(items[1..], sum)
          case Failure(error) => Failure(error)
          case Success(rest) => Success([range] + rest)
  }

  function RangeNames(prefix: string, range: Range, suffix: string): seq<string>
    requires range.start <= range.end
  {
    seq(Size(range), k requires 0 <= k < Size(range) => prefix + Pad(range.start + k, range.width) + suffix)
  }

  predicate Ascending(ranges: seq<Range>) {
    forall k :: 0 <= k < |ranges| ==> ranges[k].start <= ranges[k].end
  }

  function AllNames(prefix: string, ranges: seq<Range>, suffix: string): seq<string>
    requires Ascending(ranges)
  {
    if ranges == [] then []
    else AllNames(prefix, ranges[..|ranges| - 1], suffix) + RangeNames(prefix, ranges[|ranges| - 1], suffix)
  }

  function Sizes(ranges: seq<Range>): nat
    requires Ascending(ranges)
  {
    if ranges == [] then 0 else Size(ranges[0]) + Sizes(ranges[1..])
  }

  /** A pattern's prefix, list and suffix, or what is wrong with its brackets. */
  function Pieces(name: string): (r: Result<(string, string, string), ExpandError>)
    ensures r.Success? ==>
              && name == r.value.0 + "[" + r.value.1 + "]" + r.value.2 && r.value.1 != ""
              && ']' !in r.value.0 && ']' !in r.value.1 && ']' !in r.value.2
              && '[' !in r.value.0 && '[' !in r.value.2
  {
    var open := IndexOf(name, '[');
    if open.None? then Failure(StrayClose)
    else if ']' in name[..open.value] then Failure(CloseBeforeOpen)
    else
      var rest := name[open.value + 1..];
      var close := IndexOf(rest, ']');
      if close.None? then Failure(NeverClosed)
      else
        var suffix := rest[close.value + 1..];
        if '[' in suffix || ']' in suffix then Failure(ManyRanges)
        else if close.value == 0 then Failure(EmptyRange)
        else Success((name[..open.value], rest[..close.value], suffix))
  }

  /** Every prefix, list and suffix without brackets of their own is read back from the pattern they make. */
  lemma PiecesReadBack(prefix: string, body: string, suffix: string)
    requires '[' !in prefix && ']' !in prefix && ']' !in body && body != "" && '[' !in suffix && ']' !in suffix
    ensures Pieces(prefix + "[" + body + "]" + suffix) == Success((prefix, body, suffix))
  {
    var rest := body + [']'] + suffix;
    var name := prefix + ['['] + rest;
    IndexOfFirst(prefix, '[', rest);
    IndexOfFirst(body, ']', suffix);
    assert name == prefix + "[" + body + "]" + suffix;
    assert name[..|prefix|] == prefix && name[|prefix| + 1..] == rest;
    assert rest[..|body|] == body && rest[|body| + 1..] == suffix;
  }

  lemma {:induction false} RangesAscend(items: seq<string>, total: nat)
    ensures Ranges(items, total).Success? ==> Ascending(Ranges(items, total).value)
  {
    if items != [] && ItemRange(items[0]).Success? {
      RangesAscend(items[1..], SaturatingAdd(total, Size(ItemRange(items[0]).value)));
    }
  }

  /** The names a host entry stands for. */
  function Expansion(name: string): Result<seq<string>, ExpandError> {
    if '[' !in name then
      if ']' in name then Failure(StrayClose) else Success([name])
    else match Pieces(name)
      case Failure(error) => Failure(error)
      case Success((prefix, body, suffix)) =>
        var items := SplitOn(body, ',');
        match Ranges(items, 0)
        case Failure(error) => Failure(error)
        case Success(ranges) =>
          RangesAscend(items, 0);
          Success(AllNames(prefix, ranges, suffix))
  }

  // ----- the expansion as it is run -----

  /** The expansion in two passes: all ranges are read and counted first, and only then is a name built. */
  method Expand(name: string) returns (r: Result<seq<string>, ExpandError>)
    ensures r == Expansion(name)
  {
    if '[' !in name {
      return if ']' in name then Failure(StrayClose) else Success([name]);
    }
    var pieces := Pieces(name);
    if pieces.Failure? {
      return Failure(pieces.error);
    }
    var (prefix, body, suffix) := pieces.value;
    var ranges := ReadRanges(SplitOn(body, ','));
    if ranges.Failure? {
      return Failure(ranges.error);
    }
    var names := BuildNames(prefix, ranges.value, suffix);
    return Success(names);
  }

  method ReadRanges(items: seq<string>) returns (r: Result<seq<Range>, ExpandError>)
    ensures r == Ranges(items, 0)
    ensures r.Success? ==> Ascending(r.value)
  {
    var ranges: seq<Range>, total: nat := [], 0;
    assert items[0..] == items;
    AfterNothing(Ranges(items, 0));
    var i := 0;
    while i < |items|
      invariant 0 <= i <= |items| && total <= MAX_EXPANSION && Ascending(ranges)
      invariant Ranges(items, 0) == After(ranges, Ranges(items[i..], total))
    {
      assert items[i..][0] == items[i] && items[i..][1..] == items[i + 1..];
      var range := ItemRange(items[i]);
      if range.Failure? {
        return Failure(range.error);
      }
      var sum := SaturatingAdd(total, Size(range.value));
      if sum > MAX_EXPANSION {
        return Failure(TooMany);
      }
      AfterOne(ranges, range.value, Ranges(items[i + 1..], sum));
      total := sum;
      ranges := ranges + [range.value];
      i := i + 1;
    }
    assert ranges + [] == ranges;
    return Success(ranges);
  }

  method BuildNames(prefix: string, ranges: seq<Range>, suffix: string) returns (names: seq<string>)
    requires Ascending(ranges)
    ensures names == AllNames(prefix, ranges, suffix)
  {
    names := [];
    var k := 0;
    while k < |ranges|
      invariant 0 <= k <= |ranges|
      invariant names == AllNames(prefix, ranges[..k], suffix)
    {
      assert ranges[..k + 1][..k] == ranges[..k];
      ghost var before := names;
      var number := ranges[k].start;
      while number <= ranges[k].end
        invariant ranges[k].start <= number <= ranges[k].end + 1
        invariant names == before + RangeNames(prefix, ranges[k], suffix)[..number - ranges[k].start]
      {
        names := names + [prefix + Pad(number, ranges[k].width) + suffix];
        number := number + 1;
      }
      k := k + 1;
    }
    assert ranges[..k] == ranges;
  }

  /** Ranges found after the ones already in hand. */
  function After(ranges: seq<Range>, rest: Result<seq<Range>, ExpandError>): Result<seq<Range>, ExpandError> {
    match rest
    case Failure(error) => Failure(error)
    case Success(more) => Success(ranges + more)
  }

  lemma AfterNothing(rest: Result<seq<Range>, ExpandError>)
    ensures After([], rest) == rest
  {
    if rest.Success? {
      assert [] + rest.value == rest.value;
    }
  }

  lemma AfterOne(ranges: seq<Range>, range: Range, rest: Result<seq<Range>, ExpandError>)
    ensures After(ranges, After([range], rest)) == After(ranges + [range], rest)
  {
    if rest.Success? {
      assert ranges + ([range] + rest.value) == ranges + [range] + rest.value;
    }
  }

  // ----- what an expansion is -----

  /** The list is read exactly when each item is a range and all of them together fit the cap. */
  lemma {:induction false} RangesSucceed(items: seq<string>, total: nat)
    requires total <= MAX_EXPANSION
    ensures Ranges(items, total).Success? <==>
              && (forall k :: 0 <= k < |items| ==> ItemRange(items[k]).Success?)
              && total + SizesOf(items) <= MAX_EXPANSION
  {
    if items != [] {
      var rest := items[1..];
      if ItemRange(items[0]).Success? {
        var sum := SaturatingAdd(total, Size(ItemRange(items[0]).value));
        if sum <= MAX_EXPANSION {
          RangesSucceed(rest, sum);
          assert forall k :: 0 < k < |items| ==> items[k] == rest[k - 1];
        }
      }
    }
  }

  /** What is read is each item's range, in order. */
  lemma {:induction false} RangesAreTheItems(items: seq<string>, total: nat)
    requires total <= MAX_EXPANSION && Ranges(items, total).Success?
    ensures var ranges := Ranges(items, total).value;
            && |ranges| == |items| && Ascending(ranges) && Sizes(ranges) == SizesOf(items)
            && forall k :: 0 <= k < |items| ==> ItemRange(items[k]) == Success(ranges[k])
  {
    if items != [] {
      var ranges := Ranges(items, total).value;
      var sum := SaturatingAdd(total, Size(ItemRange(items[0]).value));
      RangesAreTheItems(items[1..], sum);
      assert ranges[1..] == Ranges(items[1..], sum).value;
    }
  }

  /** How many names a list calls for; an item that is no range calls for none. */
  function SizesOf(items: seq<string>): nat {
    if items == [] then 0
    else (if ItemRange(items[0]).Success? then Size(ItemRange(items[0]).value) else 0) + SizesOf(items[1..])
  }

  /** A count under the cap plus one item's size is far inside `usize`: the sum never saturates. */
  lemma CountNeverSaturates(total: nat, item: string)
    requires total <= MAX_EXPANSION && ItemRange(item).Success?
    ensures SaturatingAdd(total, Size(ItemRange(item).value)) == total + Size(ItemRange(item).value)
  {
  }

  lemma {:induction false} NamesCount(prefix: string, ranges: seq<Range>, suffix: string)
    requires Ascending(ranges)
    ensures |AllNames(prefix, ranges, suffix)| == Sizes(ranges)
    decreases |ranges|
  {
    if ranges != [] {
      var front, last := ranges[..|ranges| - 1], ranges[|ranges| - 1];
      NamesCount(prefix, front, suffix);
      SizesLast(ranges);
    }
  }

  lemma {:induction false} SizesLast(ranges: seq<Range>)
    requires Ascending(ranges) && ranges != []
    ensures Sizes(ranges) == Sizes(ranges[..|ranges| - 1]) + Size(ranges[|ranges| - 1])
    decreases |ranges|
  {
    if |ranges| > 1 {
      SizesLast(ranges[1..]);
      assert ranges[1..][..|ranges| - 2] == ranges[..|ranges| - 1][1..];
    }
  }

  /**
   A bracketed name expands to its prefix, number and suffix over each range in
   turn; the count is the sum of the ranges' sizes and is never over the cap.
   */
  lemma ExpansionIsItsRanges(name: string)
    requires '[' in name && Expansion(name).Success?
    ensures Pieces(name).Success?
    ensures var (prefix, body, suffix) := Pieces(name).value;
            var items := SplitOn(body, ',');
            var names := Expansion(name).value;
            && (forall k :: 0 <= k < |items| ==> ItemRange(items[k]).Success?)
            && |names| == SizesOf(items) <= MAX_EXPANSION
            && exists ranges :: Ascending(ranges) && |ranges| == |items|
                 && (forall k :: 0 <= k < |items| ==> ranges[k] == ItemRange(items[k]).value)
                 && names == AllNames(prefix, ranges, suffix)
  {
    var (prefix, body, suffix) := Pieces(name).value;
    var items := SplitOn(body, ',');
    RangesSucceed(items, 0);
    RangesAreTheItems(items, 0);
    var ranges := Ranges(items, 0).value;
    NamesCount(prefix, ranges, suffix);
    assert Expansion(name).value == AllNames(prefix, ranges, suffix);
  }

  /** An item, its two bounds, or its one bound twice. */
  ghost predicate IsItem(item: string, low: string, high: string) {
    && '-' !in low && '-' !in high && (item == low + "-" + high || (item == low && low == high))
    && ParseBound(low).Some? && ParseBound(high).Some? && ParseBound(low).value <= ParseBound(high).value
  }

  lemma ItemIsRead(item: string, low: string, high: string)
    requires IsItem(item, low, high)
    ensures ItemRange(item) == Success(Range(ParseBound(low).value, ParseBound(high).value, |low|))
  {
    if item == low + "-" + high {
      IndexOfFirst(low, '-', high);
      assert low + "-" + high == low + ['-'] + high;
      assert item[..|low|] == low && item[|low| + 1..] == high;
    }
  }

  lemma CutAtDash(item: string, at: nat)
    requires at < |item| && item[at] == '-'
    ensures item == item[..at] + "-" + item[at + 1..]
  {
  }

  lemma ItemBounds(item: string) returns (low: string, high: string)
    requires ItemRange(item).Success?
    ensures IsItem(item, low, high)
  {
    var dash := IndexOf(item, '-');
    if dash.Some? {
      low, high := item[..dash.value], item[dash.value + 1..];
      assert '-' !in low && '-' !in high && ParseBound(low).Some? && ParseBound(high).Some?;
      CutAtDash(item, dash.value);
    } else {
      low, high := item, item;
    }
  }

  /** An item is a range exactly when it is one number, or two with a dash between that do not count down. */
  lemma ItemsAreRanges(item: string)
    ensures ItemRange(item).Success? <==> exists low, high :: IsItem(item, low, high)
  {
    if ItemRange(item).Success? {
      var low, high := ItemBounds(item);
    }
    if low, high :| IsItem(item, low, high) {
      ItemIsRead(item, low, high);
    }
  }

  /** A name is a pattern of these three pieces. */
  ghost predicate IsPattern(name: string, prefix: string, body: string, suffix: string) {
    && name == prefix + "[" + body + "]" + suffix && body != "" && ']' !in body
    && '[' !in prefix && ']' !in prefix && '[' !in suffix && ']' !in suffix
  }

  ghost predicate GoodList(body: string) {
    var items := SplitOn(body, ',');
    && (forall k :: 0 <= k < |items| ==> ItemRange(items[k]).Success?)
    && SizesOf(items) <= MAX_EXPANSION
  }

  /** What can be expanded: a name without brackets, or one pattern whose list is good. */
  lemma WhatCanBeExpanded(name: string)
    ensures Expansion(name).Success? <==>
              || ('[' !in name && ']' !in name)
              || exists prefix, body, suffix :: IsPattern(name, prefix, body, suffix) && GoodList(body)
  {
    if '[' in name && Pieces(name).Success? {
      var (prefix, body, suffix) := Pieces(name).value;
      RangesSucceed(SplitOn(body, ','), 0);
      assert IsPattern(name, prefix, body, suffix);
      assert Expansion(name).Success? <==> GoodList(body);
    }
    if prefix, body, suffix :| IsPattern(name, prefix, body, suffix) && GoodList(body) {
      PiecesReadBack(prefix, body, suffix);
      RangesSucceed(SplitOn(body, ','), 0);
      assert name[|prefix|] == '[';
    }
  }

  // ----- why a name cannot be expanded -----

  /** What each complaint about brackets says of the name. */
  ghost predicate BracketsAre(error: ExpandError, name: string, before: string, inside: string, after: string) {
    match error
    case StrayClose => '[' !in name && ']' in name
    case CloseBeforeOpen => name == before + "[" + after && '[' !in before && ']' in before
    case NeverClosed => name == before + "[" + after && '[' !in before && ']' !in name
    case ManyRanges =>
      && name == before + "[" + inside + "]" + after && '[' !in before && ']' !in before && ']' !in inside
      && ('[' in after || ']' in after)
    case EmptyRange =>
      name == before + "[" + "]" + after && '[' !in before && ']' !in before && '[' !in after && ']' !in after
    case _ => false
  }

  /** An item between its first dash, if it has one; without one it is both of its bounds. */
  predicate IsCut(item: string, low: string, high: string) {
    '-' !in low && (item == low + "-" + high || (item == low && low == high))
  }

  /** What each complaint about an item says of it. */
  ghost predicate ItemIs(error: ExpandError, item: string, low: string, high: string) {
    IsCut(item, low, high)
    && match error
       case Stride(it) => it == item && '-' in item && '-' in high
       case Incomplete(it) => it == item && '-' in item && '-' !in high && (low == "" || high == "")
       case NotANumber(bound) => ParseBound(bound).None? && (bound == low || (bound == high && ParseBound(low).Some?))
       case CountsDown(it) =>
         it == item && ParseBound(low).Some? && ParseBound(high).Some? && ParseBound(low).value > ParseBound(high).value
       case _ => false
  }

  lemma WhyNotPieces(name: string) returns (before: string, inside: string, after: string)
    requires '[' in name && Pieces(name).Failure?
    ensures BracketsAre(Pieces(name).error, name, before, inside, after)
  {
    var open := IndexOf(name, '[').value;
    before, inside, after := name[..open], "", name[open + 1..];
    CutAt(name, open, "[");
    var close := IndexOf(after, ']');
    if ']' !in before && close.Some? {
      var rest := after;
      inside, after := rest[..close.value], rest[close.value + 1..];
      CutAt(rest, close.value, "]");
      CutTwice(name, before, rest, inside, after);
    } else {
      AllParts(name, open);
    }
  }

  lemma CutAt(s: string, at: nat, c: string)
    requires at < |s| && c == [s[at]]
    ensures s == s[..at] + c + s[at + 1..]
  {
  }

  lemma CutTwice(name: string, before: string, rest: string, inside: string, after: string)
    requires name == before + "[" + rest && rest == inside + "]" + after
    ensures name == before + "[" + inside + "]" + after
    ensures inside == "" ==> name == before + "[" + "]" + after
  {
  }

  lemma AllParts(name: string, open: nat)
    requires open < |name| && name[open] != ']'
    ensures ']' in name <==> ']' in name[..open] || ']' in name[open + 1..]
  {
    forall k | 0 <= k < |name| && name[k] == ']'
      ensures ']' in name[..open] || ']' in name[open + 1..]
    {
      if k < open {
        assert name[..open][k] == ']';
      } else {
        assert name[open + 1..][k - open - 1] == ']';
      }
    }
  }

  lemma CutIsItsDash(item: string) returns (low: string, high: string)
    ensures IsCut(item, low, high)
    ensures match IndexOf(item, '-')
            case None => '-' !in item && low == item && high == item
            case Some(at) => '-' in item && low == item[..at] && high == item[at + 1..]
  {
    low, high := item, item;
    var dash := IndexOf(item, '-');
    if dash.Some? {
      low, high := item[..dash.value], item[dash.value + 1..];
      CutAtDash(item, dash.value);
    }
  }

  lemma WhyNotItem(item: string) returns (low: string, high: string)
    requires ItemRange(item).Failure?
    ensures ItemIs(ItemRange(item).error, item, low, high)
  {
    low, high := CutIsItsDash(item);
    if BoundsRange(item, low, high).Failure? {
      WhyNotBounds(item, low, high);
    }
  }

  lemma WhyNotBounds(item: string, low: string, high: string)
    requires IsCut(item, low, high) && BoundsRange(item, low, high).Failure?
    ensures ItemIs(BoundsRange(item, low, high).error, item, low, high)
  {
  }

  lemma SizesOfFirst(items: seq<string>, k: nat)
    requires k < |items| && ItemRange(items[0]).Success?
    ensures SizesOf(items[..k + 1]) == Size(ItemRange(items[0]).value) + SizesOf(items[1..][..k])
  {
    assert items[..k + 1][1..] == items[1..][..k];
  }

  /** The first item that is no range is complained of, or the first that goes over the cap. */
  lemma {:induction false} WhyNotRanges(items: seq<string>, total: nat) returns (j: nat)
    requires total <= MAX_EXPANSION && Ranges(items, total).Failure?
    ensures j < |items| && forall i :: 0 <= i < j ==> ItemRange(items[i]).Success?
    ensures total + SizesOf(items[..j]) <= MAX_EXPANSION
    ensures ItemRange(items[j]) == Failure(Ranges(items, total).error)
         || (ItemRange(items[j]).Success? && Ranges(items, total).error == TooMany
             && total + SizesOf(items[..j + 1]) > MAX_EXPANSION)
    decreases |items|
  {
    if ItemRange(items[0]).Failure? {
      j := 0;
    } else {
      var sum := SaturatingAdd(total, Size(ItemRange(items[0]).value));
      CountNeverSaturates(total, items[0]);
      SizesOfFirst(items, 0);
      if sum > MAX_EXPANSION {
        j := 0;
      } else {
        var k := WhyNotRanges(items[1..], sum);
        SizesOfFirst(items, k);
        SizesOfFirst(items, k + 1);
        j := k + 1;
        assert items[j] == items[1..][k];
      }
    }
  }

  /** Whatever is complained of is so: of the brackets, or of one item of the list, all before it being ranges that fit. */
  lemma WhyItCannotBeExpanded(name: string)
    returns (before: string, inside: string, after: string, j: nat, low: string, high: string)
    requires Expansion(name).Failure?
    ensures BracketsAre(Expansion(name).error, name, before, inside, after)
         || (IsPattern(name, before, inside, after) && ItemComplaint(Expansion(name).error, SplitOn(inside, ','), j, low, high))
  {
    before, inside, after, j, low, high := "", "", "", 0, "", "";
    if '[' in name {
      if Pieces(name).Failure? {
        before, inside, after := WhyNotPieces(name);
      } else {
        before, inside, after := Pieces(name).value.0, Pieces(name).value.1, Pieces(name).value.2;
        var items := SplitOn(inside, ',');
        j, low, high := WhyNotList(items);
      }
    }
  }

  ghost predicate ItemComplaint(error: ExpandError, items: seq<string>, j: nat, low: string, high: string) {
    && j < |items| && (forall i :: 0 <= i < j ==> ItemRange(items[i]).Success?)
    && SizesOf(items[..j]) <= MAX_EXPANSION
    && (ItemIs(error, items[j], low, high)
        || (error == TooMany && ItemRange(items[j]).Success? && SizesOf(items[..j + 1]) > MAX_EXPANSION))
  }

  lemma WhyNotList(items: seq<string>) returns (j: nat, low: string, high: string)
    requires Ranges(items, 0).Failure?
    ensures ItemComplaint(Ranges(items, 0).error, items, j, low, high)
  {
    j := WhyNotRanges(items, 0);
    low, high := "", "";
    if ItemRange(items[j]).Failure? {
      low, high := WhyNotItem(items[j]);
    }
  }

  // ----- which names -----

  /** A number in digits, with zeros in front up to a width and no further. */
  predicate Numeral(t: string, n: nat, width: nat) {
    AllDigits(t) && Value(t) == n && |t| >= width && (|t| > width ==> t[0] != '0')
  }

  lemma PaddedNumber(n: nat, width: nat)
    requires width > 0
    ensures Numeral(Pad(n, width), n, width)
  {
    ValueOfPad(n, width);
    ValueOfDecimal(n);
    if |Pad(n, width)| > width {
      assert Pad(n, width) == Zeros(0) + Decimal(n) == Decimal(n);
    }
  }

  lemma RangeIsNumbered(prefix: string, range: Range, suffix: string, k: nat) returns (t: string)
    requires range.start <= range.end && k < Size(range) && range.width > 0
    ensures RangeNames(prefix, range, suffix)[k] == prefix + t + suffix && Numeral(t, range.start + k, range.width)
  {
    PaddedNumber(range.start + k, range.width);
    t := Pad(range.start + k, range.width);
  }

  lemma {:induction false} AllNamesAt(prefix: string, ranges: seq<Range>, suffix: string, j: nat, k: nat)
    requires Ascending(ranges) && j < |ranges| && k < Size(ranges[j])
    ensures var names, at := AllNames(prefix, ranges, suffix), Sizes(ranges[..j]) + k;
            at < |names| && names[at] == RangeNames(prefix, ranges[j], suffix)[k]
    decreases |ranges|
  {
    var last := |ranges| - 1;
    var front := ranges[..last];
    NamesCount(prefix, front, suffix);
    if j < last {
      AllNamesAt(prefix, front, suffix, j, k);
      assert front[..j] == ranges[..j];
    }
  }

  lemma {:induction false} SizesAgree(items: seq<string>, ranges: seq<Range>)
    requires |items| == |ranges| && Ascending(ranges)
    requires forall k :: 0 <= k < |items| ==> ItemRange(items[k]) == Success(ranges[k])
    ensures SizesOf(items) == Sizes(ranges)
    decreases |items|
  {
    if items != [] {
      SizesAgree(items[1..], ranges[1..]);
    }
  }

  lemma {:induction false} SizesOfLast(items: seq<string>)
    requires items != []
    ensures SizesOf(items) == SizesOf(items[..|items| - 1]) + SizesOf([items[|items| - 1]])
    decreases |items|
  {
    if |items| > 1 {
      SizesOfLast(items[1..]);
      assert items[1..][..|items| - 2] == items[..|items| - 1][1..];
    }
  }

  /** One more item calls for as many more names as lie between its bounds. */
  lemma SizesOfOneMore(items: seq<string>, j: nat, low: string, high: string)
    requires j < |items| && IsItem(items[j], low, high)
    ensures SizesOf([]) == 0
    ensures SizesOf(items[..j + 1]) == SizesOf(items[..j]) + (ParseBound(high).value - ParseBound(low).value + 1)
  {
    OneItemCalls(items[j], low, high);
    SizesOfLast(items[..j + 1]);
    assert items[..j + 1][..j] == items[..j];
  }

  lemma OneItemCalls(item: string, low: string, high: string)
    requires IsItem(item, low, high)
    ensures SizesOf([item]) == ParseBound(high).value - ParseBound(low).value + 1
  {
    ItemIsRead(item, low, high);
    assert [item][1..] == [];
  }

  lemma SamePlaces(items: seq<string>, ranges: seq<Range>, j: nat)
    requires |items| == |ranges| && Ascending(ranges) && j <= |items|
    requires forall i :: 0 <= i < |items| ==> ItemRange(items[i]) == Success(ranges[i])
    ensures SizesOf(items) == Sizes(ranges) && SizesOf(items[..j]) == Sizes(ranges[..j])
  {
    SizesAgree(items, ranges);
    SizesAgree(items[..j], ranges[..j]);
  }

  lemma NameOfRange(items: seq<string>, ranges: seq<Range>, prefix: string, suffix: string, j: nat, k: nat)
    returns (t: string)
    requires |items| == |ranges| && Ascending(ranges) && j < |items| && k < Size(ranges[j]) && ranges[j].width > 0
    requires SizesOf(items) == Sizes(ranges) && SizesOf(items[..j]) == Sizes(ranges[..j])
    ensures var names, at := AllNames(prefix, ranges, suffix), SizesOf(items[..j]) + k;
            && |names| == SizesOf(items) && at < |names|
            && names[at] == prefix + t + suffix && Numeral(t, ranges[j].start + k, ranges[j].width)
  {
    NamesCount(prefix, ranges, suffix);
    AllNamesAt(prefix, ranges, suffix, j, k);
    t := RangeIsNumbered(prefix, ranges[j], suffix, k);
  }

  /**
   Every name of an expansion, told by its item and its place in it: between the
   prefix and the suffix stands the item's lower bound and so many more, in
   digits, padded to the width of the lower bound.
   */
  lemma NameAt(name: string, prefix: string, body: string, suffix: string, j: nat, low: string, high: string, k: nat)
    returns (t: string)
    requires IsPattern(name, prefix, body, suffix)
    requires j < |SplitOn(body, ',')| && IsItem(SplitOn(body, ',')[j], low, high)
    requires k <= ParseBound(high).value - ParseBound(low).value
    ensures Expansion(name).Success? ==>
              var names, at := Expansion(name).value, SizesOf(SplitOn(body, ',')[..j]) + k;
              && |names| == SizesOf(SplitOn(body, ',')) && at < |names|
              && names[at] == prefix + t + suffix && Numeral(t, ParseBound(low).value + k, |low|)
  {
    var items := SplitOn(body, ',');
    var ranges := RangesOfPattern(name, prefix, body, suffix);
    t := "";
    if ReadAs(items, ranges) {
      t := NameOfItem(items, ranges, prefix, suffix, j, low, high, k);
    }
  }

  lemma RangesOfPattern(name: string, prefix: string, body: string, suffix: string) returns (ranges: seq<Range>)
    requires IsPattern(name, prefix, body, suffix)
    ensures Expansion(name).Success? ==>
              && ReadAs(SplitOn(body, ','), ranges)
              && Expansion(name).value == AllNames(prefix, ranges, suffix)
  {
    PiecesReadBack(prefix, body, suffix);
    assert name[|prefix|] == '[';
    ranges := [];
    if Ranges(SplitOn(body, ','), 0).Success? {
      RangesAreTheItems(SplitOn(body, ','), 0);
      ranges := Ranges(SplitOn(body, ','), 0).value;
    }
  }

  ghost predicate ReadAs(items: seq<string>, ranges: seq<Range>) {
    && |ranges| == |items| && Ascending(ranges)
    && forall k :: 0 <= k < |items| ==> ItemRange(items[k]) == Success(ranges[k])
  }

  lemma NameOfItem(items: seq<string>, ranges: seq<Range>, prefix: string, suffix: string,
                   j: nat, low: string, high: string, k: nat) returns (t: string)
    requires ReadAs(items, ranges) && j < |items| && IsItem(items[j], low, high)
    requires k <= ParseBound(high).value - ParseBound(low).value
    ensures var names, at := AllNames(prefix, ranges, suffix), SizesOf(items[..j]) + k;
            && |names| == SizesOf(items) && at < |names|
            && names[at] == prefix + t + suffix && Numeral(t, ParseBound(low).value + k, |low|)
  {
    ItemIsRead(items[j], low, high);
    SamePlaces(items, ranges, j);
    t := NameOfRange(items, ranges, prefix, suffix, j, k);
  }

  /** No two numbers of one range are the same name, however they are padded. */
  lemma RangeNamesDiffer(prefix: string, range: Range, suffix: string, j: nat, k: nat)
    requires range.start <= range.end && j < k < Size(range)
    ensures RangeNames(prefix, range, suffix)[j] != RangeNames(prefix, range, suffix)[k]
  {
    PadsDiffer(range.start + j, range.start + k, range.width);
    SameInside(prefix, Pad(range.start + j, range.width), Pad(range.start + k, range.width), suffix);
  }

  lemma PadsDiffer(m: nat, n: nat, width: nat)
    requires m != n
    ensures Pad(m, width) != Pad(n, width)
  {
    ValueOfPad(m, width);
    ValueOfPad(n, width);
  }

  lemma SameInside(prefix: string, a: string, b: string, suffix: string)
    ensures prefix + a + suffix == prefix + b + suffix ==> a == b
  {
    var x, y := prefix + a + suffix, prefix + b + suffix;
    if x == y {
      assert |a| == |b|;
      forall i | 0 <= i < |a|
        ensures a[i] == b[i]
      {
        assert x[|prefix| + i] == a[i] && y[|prefix| + i] == b[i];
      }
    }
  }

  lemma LoneNumberIsItsOwnRange(item: string)
    requires item != "" && AllDigits(item) && Value(item) <= U32_MAX
    ensures ItemRange(item) == Success(Range(Value(item), Value(item), |item|))
  {
    assert IsDigit(item[0]) && '-' !in item;
    assert ParseBound(item) == Some(Value(item));
  }

  lemma OneName(prefix: string, n: nat, width: nat, suffix: string)
    ensures RangeNames(prefix, Range(n, n, width), suffix) == [prefix + Pad(n, width) + suffix]
  {
    assert Size(Range(n, n, width)) == 1;
    assert n + 0 == n;
  }

  /** A number on its own is a name as written: reading it and padding it again changes nothing. */
  lemma LoneNumberExpandsToItself(prefix: string, item: string, suffix: string)
    requires item != "" && AllDigits(item) && Value(item) <= U32_MAX
    ensures ItemRange(item).Success?
    ensures RangeNames(prefix, ItemRange(item).value, suffix) == [prefix + item + suffix]
  {
    LoneNumberIsItsOwnRange(item);
    PadOfValue(item);
    OneName(prefix, Value(item), |item|, suffix);
  }

  /** As a whole pattern: a lone number in brackets is the number without them. */
  lemma {:induction false} LoneNumberPattern(prefix: string, item: string, suffix: string)
    requires '[' !in prefix && ']' !in prefix && '[' !in suffix && ']' !in suffix
    requires item != "" && AllDigits(item) && Value(item) <= U32_MAX
    ensures Expansion(prefix + "[" + item + "]" + suffix) == Success([prefix + item + suffix])
  {
    var name := prefix + "[" + item + "]" + suffix;
    DigitsAreNoPunctuation(item);
    PiecesReadBack(prefix, item, suffix);
    assert name[|prefix|] == '[';
    var range := Range(Value(item), Value(item), |item|);
    LoneNumberIsItsOwnRange(item);
    OneRange(item, range);
    LoneNumberExpandsToItself(prefix, item, suffix);
    assert [range][1..] == [];
    assert AllNames(prefix, [range], suffix) == RangeNames(prefix, range, suffix);
  }

  lemma OneRange(item: string, range: Range)
    requires ItemRange(item) == Success(range) && range.start == range.end
    ensures Ranges([item], 0) == Success([range])
  {
    var items := [item];
    assert items[0] == item && items[1..] == [] && Size(range) == 1;
    assert Ranges(items[1..], SaturatingAdd(0, 1)) == Success([]);
    assert [range] + [] == [range];
  }

  lemma DigitsAreNoPunctuation(item: string)
    requires item != "" && AllDigits(item)
    ensures ']' !in item && SplitOn(item, ',') == [item]
  {
    assert ',' !in item;
  }
}
