/**
 Port ranges as text and as intervals: one port (`8000`), two ends (`8000-8010`) or a base and
 an offset (`8000+10`). All arithmetic is on 64-bit integers that wrap around.
 */
module PortRanges {
  import opened Wrappers
  import opened GoText

  datatype Interval = Interval(base: int64, size: int64) {
    /** `p - base` cannot wrap here: every base that parsing produces is non-negative. */
    predicate Contains(p: int) {
      p >= base && p - base < size
    }

    function Last(): int64 {
      Wrap64(Wrap64(base + size) - 1)
    }

    function Text(): string {
      if size == 0 then "" else Itoa(base) + "-" + Itoa(Last())
    }
  }

  /** The two ends written down by a text, whatever their order; None when it is not a range. */
  function Ends(value: string): Option<(int64, int64)> {
    var hyphen := IndexOf(value, '-');
    var plus := IndexOf(value, '+');
    if plus == -1 && hyphen == -1 then
      var port := Atoi(value);
      if port.None? then None else Some((port.value, port.value))
    else if plus == -1 then
      var low, high := Atoi(value[..hyphen]), Atoi(value[hyphen + 1..]);
      if low.None? || high.None? then None else Some((low.value, high.value))
    else if hyphen == -1 then
      var low, offset := Atoi(value[..plus]), Atoi(value[plus + 1..]);
      if low.None? || offset.None? then None else Some((low.value, Wrap64(low.value + offset.value)))
    else
      None
  }

  /** The interval a text stands for. Blank text is the empty interval. */
  function Parse(text: string): Option<Interval> {
    var value := TrimSpace(text);
    if value == "" then Some(Interval(0, 0))
    else
      var ends := Ends(value);
      if ends.None? || ends.value.1 < ends.value.0 then None
      else Some(Interval(ends.value.0, SizeBetween(ends.value.0, ends.value.1)))
  }

  /** `1 + high - low`, evaluated from the left. */
  function SizeBetween(low: int64, high: int64): int64 {
    var top: int := Wrap64(1 + high);
    Wrap64(top - low)
  }

  // ---------- the classes ----------

  class PortRange {
    var base: int64
    var size: int64

    ghost function View(): Interval
      reads this
    {
      Interval(base, size)
    }

    constructor ()
      ensures View() == Interval(0, 0)
    {
      base, size := 0, 0;
    }

    /** A failing call leaves the receiver as it was. */
    method Set(text: string) returns (ok: bool)
      modifies this
      ensures ok == Parse(text).Some?
      ensures View() == if ok then Parse(text).value else old(View())
    {
      var value := TrimSpace(text);
      if value == "" {
        base := 0;
        size := 0;
        return true;
      }
      var ends := Ends(value);
      if ends.None? {
        return false;
      }
      var (low, high) := ends.value;
      if high < low {
        return false;
      }
      base := low;
      size := SizeBetween(low, high);
      return true;
    }

    method Contains(p: int) returns (inside: bool)
      ensures inside == View().Contains(p)
    {
      inside := p >= base && p - base < size;
    }
  }

  /** A range with the reserved ranges cut out of it. */
  datatype Ranges = Ranges(range: Interval, reserved: seq<Interval>) {
    predicate Contains(p: int) {
      range.Contains(p) && !InSome(p, reserved)
    }

    function Begin(): int {
      range.base
    }

    function End(): int {
      range.Last()
    }
  }

  predicate InSome(p: int, intervals: seq<Interval>) {
    exists i :: 0 <= i < |intervals| && intervals[i].Contains(p)
  }

  ghost function Views(rs: seq<PortRange>): (views: seq<Interval>)
    reads rs
    ensures |views| == |rs| && forall i :: 0 <= i < |rs| ==> views[i] == rs[i].View()
  {
    if rs == [] then [] else Views(rs[..|rs| - 1]) + [rs[|rs| - 1].View()]
  }

  class PortRanges {
    var portRange: PortRange?
    var reservedPortRanges: seq<PortRange>

    ghost function View(): Ranges
      reads this, portRange, reservedPortRanges
      requires portRange != null
    {
      Ranges(portRange.View(), Views(reservedPortRanges))
    }

    constructor ()
      ensures portRange == null && reservedPortRanges == []
    {
      portRange, reservedPortRanges := null, [];
    }

    method Set(text: string) returns (ok: bool)
      modifies this`portRange
      ensures ok == Parse(text).Some?
      ensures !ok ==> portRange == old(portRange)
      ensures ok ==> portRange != null && fresh(portRange) && portRange.View() == Parse(text).value
    {
      var pr := new PortRange();
      ok := pr.Set(text);
      if ok {
        portRange := pr;
      }
    }

    /** Appends one range per comma-separated piece, and stops at the first piece that is none. */
    method SetReservedPortRanges(text: string) returns (ok: bool)
      modifies this`reservedPortRanges
      ensures ok == ParseAll(Split(text, ',')).Some?
      ensures ok ==> Views(reservedPortRanges) == old(Views(reservedPortRanges)) + ParseAll(Split(text, ',')).value
      ensures old(reservedPortRanges) <= reservedPortRanges
    {
      hide *;
      var pieces := Split(text, ',');
      var i := 0;
      ghost var before := reservedPortRanges;
      ghost var parsedSoFar: seq<Interval> := [];
      while i < |pieces|
        invariant 0 <= i <= |pieces|
        invariant |parsedSoFar| == i && forall j :: 0 <= j < i ==> Parse(pieces[j]) == Some(parsedSoFar[j])
        invariant before <= reservedPortRanges
        invariant Views(reservedPortRanges) == old(Views(reservedPortRanges)) + parsedSoFar
      {
        var pr := new PortRange();
        var parsed := pr.Set(pieces[i]);
        if !parsed {
          NotParsedAll(pieces, i);
          return false;
        }
        reservedPortRanges := reservedPortRanges + [pr];
        parsedSoFar := parsedSoFar + [pr.View()];
        i := i + 1;
      }
      ParsedAll(pieces, parsedSoFar);
      return true;
    }

    method Contains(p: int) returns (inside: bool)
      requires portRange != null
      ensures inside == View().Contains(p)
    {
      var i := 0;
      while i < |reservedPortRanges|
        invariant 0 <= i <= |reservedPortRanges|
        invariant forall j :: 0 <= j < i ==> !reservedPortRanges[j].View().Contains(p)
      {
        var excluded := reservedPortRanges[i].Contains(p);
        if excluded {
          assert Views(reservedPortRanges)[i].Contains(p);
          return false;
        }
        i := i + 1;
      }
      inside := portRange.Contains(p);
    }

    method GetMinAndMaxPort() returns (low: int, high: int)
      requires portRange != null
      ensures low == View().Begin() && high == View().End()
    {
      low, high := portRange.base, Wrap64(Wrap64(portRange.base + portRange.size) - 1);
    }
  }

  /** Every piece parsed, in order; None when some piece is no range. */
  function ParseAll(pieces: seq<string>): (r: Option<seq<Interval>>) {
    if forall i :: 0 <= i < |pieces| ==> Parse(pieces[i]).Some?
    then Some(seq(|pieces|, i requires 0 <= i < |pieces| && Parse(pieces[i]).Some? => Parse(pieces[i]).value))
    else None
  }

  lemma ParsedAll(pieces: seq<string>, rs: seq<Interval>)
    requires |pieces| == |rs|
    requires forall i :: 0 <= i < |rs| ==> Parse(pieces[i]) == Some(rs[i])
    ensures ParseAll(pieces) == Some(rs)
  {
    assert forall i :: 0 <= i < |pieces| ==> Parse(pieces[i]).Some?;
    assert ParseAll(pieces).value == rs;
  }

  lemma NotParsedAll(pieces: seq<string>, i: nat)
    requires i < |pieces| && Parse(pieces[i]).None?
    ensures ParseAll(pieces).None?
  {
  }

  /** `ParsePortRanges`: a range and, unless the second text is empty, its reserved ranges. */
  function ParseRanges(range: string, reserved: string): Option<Ranges> {
    var main := Parse(range);
    if main.None? then None
    else if reserved == "" then Some(Ranges(main.value, []))
    else
      var cut := ParseAll(Split(reserved, ','));
      if cut.None? then None else Some(Ranges(main.value, cut.value))
  }

  method ParsePortRanges(range: string, reserved: string) returns (prs: PortRanges?)
    ensures prs != null <==> ParseRanges(range, reserved).Some?
    ensures prs != null ==> prs.portRange != null && prs.View() == ParseRanges(range, reserved).value
  {
    hide Parse, ParseAll, Split;
    var result := new PortRanges();
    var ok := result.Set(range);
    if !ok {
      return null;
    }
    if reserved != "" {
      ok := result.SetReservedPortRanges(reserved);
      if !ok {
        return null;
      }
    }
    return result;
  }

  // ---------- what parsing produces ----------

  /** The one text range whose size does not fit: it runs from 0 to the largest integer. */
  const OVERFLOWN := Interval(0, MIN_INT)

  /** The intervals that printing and parsing keep. */
  predicate Canonical(r: Interval) {
    || r == Interval(0, 0)
    || r == OVERFLOWN
    || (0 <= r.base && 1 <= r.size && r.base + r.size - 1 <= MAX_INT && IsInt64(r.size))
  }

  /** The low end is never negative: a leading `-` would have been the hyphen. */
  lemma EndsBounds(value: string)
    ensures Ends(value).Some? ==>
              0 <= Ends(value).value.0 <= MAX_INT && IsInt64(Ends(value).value.1)
  {
  }

  lemma SizeOfEnds(low: int, high: int)
    requires 0 <= low <= high <= MAX_INT
    ensures SizeBetween(low, high) ==
            if low == 0 && high == MAX_INT then MIN_INT else high - low + 1
  {
  }

  lemma ParseIsCanonical(text: string)
    requires Parse(text).Some?
    ensures Canonical(Parse(text).value)
  {
    var value := TrimSpace(text);
    if value != "" {
      EndsBounds(value);
      var (low, high) := Ends(value).value;
      SizeOfEnds(low, high);
    }
  }

  /** Bases are never negative; a size is negative exactly for the range 0..MAX_INT. */
  lemma ParsedSizes(text: string)
    requires Parse(text).Some?
    ensures Parse(text).value.base >= 0
    ensures Parse(text).value.size < 0 <==> Ends(TrimSpace(text)) == Some((0, MAX_INT))
  {
    var value := TrimSpace(text);
    if value == "" {
      assert Ends(value).None?;
    } else {
      EndsBounds(value);
      var (low, high) := Ends(value).value;
      SizeOfEnds(low, high);
    }
  }

  lemma ParsedRangesAreCanonical(range: string, reserved: string)
    ensures ParseRanges(range, reserved).Some? ==> Canonical(ParseRanges(range, reserved).value.range)
  {
    hide Parse, ParseAll;
    if Parse(range).Some? {
      ParseIsCanonical(range);
    }
  }

  // ---------- the three notations ----------

  lemma DigitsAreNotSpace(n: nat)
    ensures !IsSpace(Digits(n)[0]) && !IsSpace(Digits(n)[|Digits(n)| - 1])
    ensures '-' !in Digits(n) && '+' !in Digits(n) && ',' !in Digits(n)
  {
  }

  lemma IndexInPair(a: string, sep: char, b: string, other: char)
    requires sep !in a && other != sep && other !in a && other !in b
    ensures var text := a + [sep] + b;
      && IndexOf(text, sep) == |a| && IndexOf(text, other) == -1
      && text[..|a|] == a && text[|a| + 1..] == b
  {
    IndexOfFirst(a, sep, b);
    assert other !in a + [sep] + b;
  }

  lemma EndsAt(text: string, sep: char, i: nat, low: int64, second: int64)
    requires sep == '-' || sep == '+'
    requires IndexOf(text, sep) == i && IndexOf(text, if sep == '-' then '+' else '-') == -1
    requires Atoi(text[..i]) == Some(low) && Atoi(text[i + 1..]) == Some(second)
    ensures Ends(text) == Some((low, if sep == '-' then second else Wrap64(low + second)))
  {
  }

  lemma EndsOfPair(low: nat, sep: char, second: nat)
    requires low <= MAX_INT && second <= MAX_INT && (sep == '-' || sep == '+')
    ensures var text := Digits(low) + [sep] + Digits(second);
      && TrimSpace(text) == text
      && Ends(text) == Some((low, if sep == '-' then second else Wrap64(low + second)))
  {
    var a, b := Digits(low), Digits(second);
    var text := a + [sep] + b;
    hide Ends, TrimSpace, IsSpace, Digits, IndexOf, Atoi;
    DigitsAreNotSpace(low);
    DigitsAreNotSpace(second);
    assert TrimSpace(text) == text by {
      assert text[0] == a[0] && text[|text| - 1] == b[|b| - 1];
    }
    AtoiOfItoa(low);
    AtoiOfItoa(second);
    IndexInPair(a, sep, b, if sep == '-' then '+' else '-');
    EndsAt(text, sep, |a|, low, second);
  }

  lemma ParseByEnds(text: string, low: int64, high: int64)
    requires TrimSpace(text) == text != "" && Ends(text) == Some((low, high)) && low >= 0
    ensures Parse(text) ==
            if high < low then None
            else if low == 0 && high == MAX_INT then Some(OVERFLOWN)
            else Some(Interval(low, high - low + 1))
  {
  }

  /** `low-high`: the interval of its two ends, or an error when they are out of order. */
  lemma ParseHyphen(low: nat, high: nat)
    requires low <= MAX_INT && high <= MAX_INT
    ensures var r := Parse(Digits(low) + "-" + Digits(high));
      if high < low then r.None?
      else if low == 0 && high == MAX_INT then r == Some(OVERFLOWN)
      else r == Some(Interval(low, high - low + 1))
  {
    EndsOfPair(low, '-', high);
    ParseByEnds(Digits(low) + ['-'] + Digits(high), low, high);
  }

  /** `low+offset` means `low-(low+offset)`; it is an error when the sum leaves 64 bits. */
  lemma PlusIsHyphen(low: nat, offset: nat)
    requires low <= MAX_INT && offset <= MAX_INT
    ensures Parse(Digits(low) + "+" + Digits(offset)) ==
            if low + offset <= MAX_INT then Parse(Digits(low) + "-" + Digits(low + offset)) else None
  {
    EndsOfPair(low, '+', offset);
    ParseByEnds(Digits(low) + ['+'] + Digits(offset), low, Wrap64(low + offset));
    if low + offset <= MAX_INT {
      ParseHyphen(low, low + offset);
    }
  }

  /** A single port is the range from itself to itself. */
  lemma SingleIsHyphen(port: nat)
    requires port <= MAX_INT
    ensures Parse(Digits(port)) == Parse(Digits(port) + "-" + Digits(port)) == Some(Interval(port, 1))
  {
    DigitsAreNotSpace(port);
    AtoiOfItoa(port);
    assert Ends(Digits(port)) == Some((port, port));
    ParseByEnds(Digits(port), port, port);
    ParseHyphen(port, port);
  }

  /** What a text range contains, for every port: exactly its ends and what is between them,
      unless the range is 0..MAX_INT, which contains nothing. */
  lemma ContainsMeansBetween(low: nat, high: nat, p: int)
    requires low <= high <= MAX_INT
    ensures var r := Parse(Digits(low) + "-" + Digits(high));
      && r.Some?
      && (r.value.Contains(p) <==> low <= p <= high && !(low == 0 && high == MAX_INT))
  {
    ParseHyphen(low, high);
  }

  // ---------- printing and parsing ----------

  lemma TextOfCanonical(r: Interval)
    requires Canonical(r) && r.size != 0
    ensures r.Text() == Digits(r.base) + "-" + Digits(r.Last())
    ensures r.Last() == if r == OVERFLOWN then MAX_INT else r.base + r.size - 1
  {
  }

  lemma TextHasNoComma(r: Interval)
    requires Canonical(r)
    ensures ',' !in r.Text()
  {
    if r.size != 0 {
      TextOfCanonical(r);
      DigitsAreNotSpace(r.base);
      DigitsAreNotSpace(r.Last());
    }
  }

  /** Printing then parsing gives the interval back, for every interval parsing can produce. */
  lemma ParseOfText(r: Interval)
    requires Canonical(r)
    ensures Parse(r.Text()) == Some(r)
  {
    if r.size != 0 {
      TextOfCanonical(r);
      ParseHyphen(r.base, r.Last());
    }
  }

  /** The image of parsing is exactly the canonical intervals, and printing is a right inverse. */
  lemma CanonicalIffParsed(r: Interval)
    ensures Canonical(r) <==> exists text :: Parse(text) == Some(r)
  {
    if Canonical(r) {
      ParseOfText(r);
    }
    forall text | Parse(text) == Some(r)
      ensures Canonical(r)
    {
      ParseIsCanonical(text);
    }
  }

  /** Set(String(pr)) restores pr, whatever text pr came from. */
  lemma SetOfStringRestores(text: string)
    requires Parse(text).Some?
    ensures Parse(Parse(text).value.Text()) == Parse(text)
  {
    ParseIsCanonical(text);
    ParseOfText(Parse(text).value);
  }

  /** Blanks around a range make no difference. */
  lemma BlanksAroundRange(a: string, text: string, b: string)
    requires AllSpace(a) && AllSpace(b)
    ensures Parse(a + text + b) == Parse(text)
  {
    hide TrimSpace, Ends;
    TrimAround(a, text, b);
  }

  /** The text printed for each range, with any blanks around it. */
  ghost predicate IsPadded(piece: string, r: Interval) {
    exists before, after :: AllSpace(before) && AllSpace(after) && piece == before + r.Text() + after
  }

  /** The same for a comma-separated list of reserved ranges, with blanks around any of them. */
  lemma ReservedRoundTrip(rs: seq<Interval>, pieces: seq<string>)
    requires |rs| == |pieces| > 0
    requires forall i :: 0 <= i < |rs| ==> Canonical(rs[i]) && IsPadded(pieces[i], rs[i])
    ensures ParseAll(Split(Join(pieces, ','), ',')) == Some(rs)
  {
    hide Parse, ParseAll, AllSpace, Canonical, Split, Join;
    forall i | 0 <= i < |rs|
      ensures Parse(pieces[i]) == Some(rs[i]) && ',' !in pieces[i]
    {
      var before, after :| AllSpace(before) && AllSpace(after) && pieces[i] == before + rs[i].Text() + after;
      BlanksAroundRange(before, rs[i].Text(), after);
      ParseOfText(rs[i]);
      TextHasNoComma(rs[i]);
      NoCommaInSpace(before);
      NoCommaInSpace(after);
    }
    SplitOfJoin(pieces, ',');
    ParsedAll(pieces, rs);
  }

  lemma NoCommaInSpace(s: string)
    requires AllSpace(s)
    ensures ',' !in s
  {
  }
}
