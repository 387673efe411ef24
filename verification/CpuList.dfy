/** Parsing of kernel CPU lists such as "0-3,8,12-15". */
module CpuList {
  import opened ConfigTypes
  import opened Text

  /** `split(',')`: always at least one part. */
  function Split(s: string): (parts: seq<string>)
    ensures parts != []
  {
    if s == "" then [""]
    else
      var rest := Split(s[1..]);
      if s[0] == ',' then [""] + rest else PushFront(s[0], rest)
  }

  /** One more character at the start of the first part. */
  function PushFront(c: char, parts: seq<string>): (r: seq<string>)
    requires parts != []
    ensures r != []
  {
    [[c] + parts[0]] + parts[1..]
  }

  /** One more character at the end of the last part. */
  function PushBack(parts: seq<string>, c: char): (r: seq<string>)
    requires parts != []
    ensures r != []
  {
    parts[..|parts| - 1] + [parts[|parts| - 1] + [c]]
  }

  /** `lo..=hi`, empty when `hi < lo`. */
  function Span(lo: nat, hi: nat): seq<nat> {
    if hi < lo then [] else if hi == lo then [lo] else Span(lo, hi - 1) + [hi]
  }

  /** What one part of the list stands for; a part that does not parse stands for nothing. */
  function ParsePart(part: string): seq<nat> {
    ParseTrimmed(Trim(part))
  }

  function ParseTrimmed(part: string): seq<nat> {
    if part == "" then []
    else
      match Find(part, '-')
      case Some(dash) =>
        var (lo, hi) := (ParseU32(Trim(part[..dash])), ParseU32(Trim(part[dash + 1..])));
        if lo.Some? && hi.Some? then Span(lo.value, hi.value) else []
      case None =>
        match ParseU32(part)
        case Some(v) => [v]
        case None => []
  }

  /** What `f` yields for each element, one after the other. */
  function FlatMap<A, B>(f: A -> seq<B>, xs: seq<A>): seq<B> {
    if xs == [] then [] else FlatMap(f, xs[..|xs| - 1]) + f(xs[|xs| - 1])
  }

  function ParseParts(parts: seq<string>): seq<nat> {
    FlatMap(ParsePart, parts)
  }

  /** The parts of the list read one by one, without the outer trimming. */
  function Meaning(content: string): seq<nat> {
    ParseParts(Split(content))
  }

  /** `parse_cpulist`. Trimming the whole first makes no difference. */
  method ParseCpuList(content: string) returns (cpus: seq<nat>)
    ensures cpus == Meaning(content)
  {
    TrimChangesNothing(content);
    var trimmed := Trim(content);
    if trimmed == "" {
      EmptyMeaning();
      return [];
    }
    cpus := ParseAll(Split(trimmed));
  }

  /** The loop over the parts. */
  method ParseAll(parts: seq<string>) returns (cpus: seq<nat>)
    ensures cpus == ParseParts(parts)
  {
    cpus := [];
    var i := 0;
    while i < |parts|
      invariant 0 <= i <= |parts|
      invariant cpus == FlatMap(ParsePart, parts[..i])
    {
      var more := ParseOne(parts[i]);
      FlatMapSnoc(ParsePart, parts, i);
      cpus := cpus + more;
      i := i + 1;
    }
    assert parts[..i] == parts;
  }

  /** The body of the loop: one part. */
  method ParseOne(raw: string) returns (cpus: seq<nat>)
    ensures cpus == ParsePart(raw)
  {
    var part := Trim(raw);
    cpus := [];
    if part == "" {
      return;
    }
    var dash := Find(part, '-');
    if dash.Some? {
      var lo, hi := ParseU32(Trim(part[..dash.value])), ParseU32(Trim(part[dash.value + 1..]));
      if lo.Some? && hi.Some? {
        cpus := Span(lo.value, hi.value);
      }
    } else {
      var v := ParseU32(part);
      if v.Some? {
        cpus := [v.value];
      }
    }
  }

  // ---- Splitting and trimming ----

  lemma EmptyMeaning()
    ensures Meaning("") == []
  {
    assert Split("") == [""];
    ParsePartsOne("");
  }

  lemma {:induction false} FlatMapAppend<A, B>(f: A -> seq<B>, a: seq<A>, b: seq<A>)
    ensures FlatMap(f, a + b) == FlatMap(f, a) + FlatMap(f, b)
    decreases |b|
  {
    if b == [] {
      assert a + b == a;
    } else {
      var n := |b| - 1;
      assert (a + b)[..|a + b| - 1] == a + b[..n];
      FlatMapAppend(f, a, b[..n]);
    }
  }

  lemma FlatMapSnoc<A, B>(f: A -> seq<B>, xs: seq<A>, i: nat)
    requires i < |xs|
    ensures FlatMap(f, xs[..i + 1]) == FlatMap(f, xs[..i]) + f(xs[i])
  {
    assert xs[..i + 1][..i] == xs[..i];
  }

  lemma FlatMapOne<A, B>(f: A -> seq<B>, x: A)
    ensures FlatMap(f, [x]) == f(x)
  {
    assert [x][..0] == [];
    assert FlatMap(f, []) == [];
  }

  lemma ParsePartsOne(p: string)
    ensures ParseParts([p]) == ParsePart(p)
  {
    FlatMapOne(ParsePart, p);
  }

  lemma {:induction false} SplitAppend(a: string, b: string)
    ensures Split(a + "," + b) == Split(a) + Split(b)
    decreases |a|
  {
    var all := a + "," + b;
    if a == "" {
      assert all == "," + b && all[1..] == b;
    } else {
      assert all[1..] == a[1..] + "," + b;
      SplitAppend(a[1..], b);
      if a[0] != ',' {
        PushFrontAppend(a[0], Split(a[1..]), Split(b));
      }
    }
  }

  lemma PushFrontAppend(c: char, p: seq<string>, q: seq<string>)
    requires p != []
    ensures PushFront(c, p + q) == PushFront(c, p) + q
  {
    assert (p + q)[1..] == p[1..] + q;
  }

  lemma PushesCommute(c: char, p: seq<string>, d: char)
    requires p != []
    ensures PushBack(PushFront(c, p), d) == PushFront(c, PushBack(p, d))
  {
    if |p| == 1 {
      assert [c] + (p[0] + [d]) == ([c] + p[0]) + [d];
    }
  }

  lemma PushBackPrepend(x: string, p: seq<string>, d: char)
    requires p != []
    ensures PushBack([x] + p, d) == [x] + PushBack(p, d)
  {
  }

  lemma SplitLeading(c: char, s: string)
    requires c != ','
    ensures Split([c] + s) == PushFront(c, Split(s))
  {
    assert ([c] + s)[1..] == s;
  }

  lemma {:induction false} SplitTrailing(s: string, c: char)
    requires c != ','
    ensures Split(s + [c]) == PushBack(Split(s), c)
    decreases |s|
  {
    if s == "" {
      SplitLeading(c, "");
      assert s + [c] == [c] + "";
    } else {
      assert (s + [c])[1..] == s[1..] + [c];
      SplitTrailing(s[1..], c);
      if s[0] == ',' {
        PushBackPrepend("", Split(s[1..]), c);
      } else {
        PushesCommute(s[0], Split(s[1..]), c);
      }
    }
  }

  lemma SpaceIsNoComma(c: char)
    requires IsSpace(c)
    ensures c != ','
  {
  }

  /** The two lists agree part by part, up to surrounding space. */
  ghost predicate SameParts(p: seq<string>, q: seq<string>) {
    |p| == |q| && forall i :: 0 <= i < |p| ==> Trim(p[i]) == Trim(q[i])
  }

  lemma {:induction false} SamePartsParse(p: seq<string>, q: seq<string>)
    requires SameParts(p, q)
    ensures ParseParts(p) == ParseParts(q)
    decreases |p|
  {
    if p != [] {
      var n := |p| - 1;
      SamePartsParse(p[..n], q[..n]);
      assert Trim(p[n]) == Trim(q[n]);
    }
  }

  lemma LeadingSpaceSame(c: char, s: string)
    requires IsSpace(c)
    ensures SameParts(Split([c] + s), Split(s))
  {
    SpaceIsNoComma(c);
    SplitLeading(c, s);
    TrimLeadingSpace(c, Split(s)[0]);
  }

  lemma TrailingSpaceSame(s: string, c: char)
    requires IsSpace(c)
    ensures SameParts(Split(s + [c]), Split(s))
  {
    SpaceIsNoComma(c);
    SplitTrailing(s, c);
    TrimTrailingSpace(Split(s)[|Split(s)| - 1], c);
  }

  lemma {:induction false} TrimStartSame(s: string)
    ensures SameParts(Split(TrimStart(s)), Split(s))
  {
    if s != "" && IsSpace(s[0]) {
      var c, rest := s[0], s[1..];
      TrimStartSame(rest);
      LeadingSpaceSame(c, rest);
      assert s == [c] + rest;
    }
  }

  lemma {:induction false} TrimEndSame(s: string)
    ensures SameParts(Split(TrimEnd(s)), Split(s))
  {
    if s != "" && IsSpace(s[|s| - 1]) {
      var front, c := s[..|s| - 1], s[|s| - 1];
      TrimEndSame(front);
      TrailingSpaceSame(front, c);
      assert s == front + [c];
    }
  }

  lemma TrimChangesNothing(s: string)
    ensures Meaning(Trim(s)) == Meaning(s)
  {
    TrimStartSame(s);
    TrimEndSame(TrimStart(s));
    SamePartsParse(Split(TrimStart(s)), Split(s));
    SamePartsParse(Split(Trim(s)), Split(TrimStart(s)));
  }

  /** Joining two lists with a comma joins their CPUs, whatever the two strings are. */
  lemma CommaConcatenates(a: string, b: string)
    ensures Meaning(a + "," + b) == Meaning(a) + Meaning(b)
  {
    SplitAppend(a, b);
    FlatMapAppend(ParsePart, Split(a), Split(b));
  }

  /** A part without a dash stands for its number, if it is one. */
  lemma PartWithoutDash(p: string)
    requires ',' !in p && '-' !in p
    ensures Meaning(p) == match ParseU32(Trim(p))
                          case Some(v) => [v]
                          case None => []
  {
    SplitPlain(p);
    ParsePartsOne(p);
    TrimIs(p);
  }

  /** A part with a dash stands for the numbers between its ends, if both are numbers. */
  lemma PartWithDash(l: string, r: string)
    requires ',' !in l && ',' !in r && '-' !in l
    ensures var lo, hi := ParseU32(Trim(l)), ParseU32(Trim(r));
            Meaning(l + "-" + r) == if lo.Some? && hi.Some? then Span(lo.value, hi.value) else []
  {
    var part := l + "-" + r;
    SplitPlain(part);
    ParsePartsOne(part);
    TrimAround(l, '-', r);
    DashSplits(TrimStart(l), TrimEnd(r), l);
    TrimAfterStart(l);
    TrimAfterEnd(r);
  }

  lemma DashSplits(a: string, b: string, l: string)
    requires '-' !in l && a == TrimStart(l)
    ensures var part := a + "-" + b;
            Find(part, '-') == Some(|a|) && part[..|a|] == a && part[|a| + 1..] == b
  {
    TrimStartIs(l);
    var part := a + "-" + b;
    assert part[..|a|] == a && part[|a| + 1..] == b;
    FindAt(part, '-', |a|);
  }

  /** The newline the kernel ends the list with makes no difference. */
  lemma NewlineIgnored(s: string)
    ensures Meaning(s + "\n") == Meaning(s)
  {
    SpacesAre('\n');
    TrailingSpaceSame(s, '\n');
    SamePartsParse(Split(s + "\n"), Split(s));
  }

  // ---- Printing and parsing ----

  datatype Item = Single(v: nat) | Range(lo: nat, hi: nat)

  predicate InRange(item: Item) {
    match item
    case Single(v) => v < U32_LIMIT
    case Range(lo, hi) => lo < U32_LIMIT && hi < U32_LIMIT
  }

  function PrintItem(item: Item): string {
    match item
    case Single(v) => PrintNat(v)
    case Range(lo, hi) => PrintNat(lo) + "-" + PrintNat(hi)
  }

  function Expand(item: Item): seq<nat> {
    match item
    case Single(v) => [v]
    case Range(lo, hi) => Span(lo, hi)
  }

  /** The kernel's format: items separated by commas. */
  function Print(items: seq<Item>): string {
    if items == [] then ""
    else if |items| == 1 then PrintItem(items[0])
    else Print(items[..|items| - 1]) + "," + PrintItem(items[|items| - 1])
  }

  function ExpandAll(items: seq<Item>): seq<nat> {
    FlatMap(Expand, items)
  }

  predicate PlainChar(c: char) {
    IsDigit(c) || c == '-'
  }

  lemma ItemChars(item: Item)
    ensures PrintItem(item) != "" && forall c :: c in PrintItem(item) ==> PlainChar(c)
  {
  }

  lemma {:induction false} SplitPlain(s: string)
    requires ',' !in s
    ensures Split(s) == [s]
  {
    if s != "" {
      assert s[0] in s && forall c :: c in s[1..] ==> c in s;
      SplitPlain(s[1..]);
      assert s == [s[0]] + s[1..];
    }
  }

  lemma ParseSingle(v: nat)
    requires v < U32_LIMIT
    ensures ParsePart(PrintNat(v)) == [v]
  {
    PrintIsTrimmed(v);
    ParsePrint(v);
    assert '-' !in PrintNat(v);
  }

  lemma ParseRange(lo: nat, hi: nat)
    requires lo < U32_LIMIT && hi < U32_LIMIT
    ensures ParsePart(PrintNat(lo) + "-" + PrintNat(hi)) == Span(lo, hi)
  {
    var a, b := PrintNat(lo), PrintNat(hi);
    RangeShape(a, b);
    PrintIsTrimmed(lo);
    PrintIsTrimmed(hi);
    ParsePrint(lo);
    ParsePrint(hi);
  }

  /** Two strings of digits around a dash: nothing to trim, and the dash is found between them. */
  lemma RangeShape(a: string, b: string)
    requires a != "" && b != "" && forall c :: c in a + b ==> IsDigit(c)
    ensures var part := a + "-" + b;
            Trim(part) == part && Find(part, '-') == Some(|a|) && part[..|a|] == a && part[|a| + 1..] == b
  {
    var part := a + "-" + b;
    assert a[0] in a + b && b[|b| - 1] in a + b && part[0] == a[0] && part[|part| - 1] == b[|b| - 1];
    TrimIs(part);
    assert forall c :: c in a ==> c in a + b;
    assert part[..|a|] == a;
    FindAt(part, '-', |a|);
  }

  lemma ItemMeans(item: Item)
    requires InRange(item)
    ensures Meaning(PrintItem(item)) == Expand(item)
  {
    ItemChars(item);
    SplitPlain(PrintItem(item));
    ParsePartsOne(PrintItem(item));
    match item
    case Single(v) => ParseSingle(v);
    case Range(lo, hi) => ParseRange(lo, hi);
  }

  /** Any list of 32-bit singletons and ranges, printed and parsed, yields its expansion in order. */
  lemma {:induction false} PrintThenParse(items: seq<Item>)
    requires forall item :: item in items ==> InRange(item)
    ensures Meaning(Print(items)) == ExpandAll(items)
  {
    if items == [] {
      EmptyMeaning();
    } else if |items| == 1 {
      ItemMeans(items[0]);
      FlatMapOne(Expand, items[0]);
      assert items == [items[0]];
    } else {
      var front, item := items[..|items| - 1], items[|items| - 1];
      PrintThenParse(front);
      ItemMeans(item);
      CommaConcatenates(Print(front), PrintItem(item));
    }
  }

  /** A range stands for exactly the numbers between its ends, in order. */
  lemma {:induction false} SpanIs(lo: nat, hi: nat)
    ensures |Span(lo, hi)| == if lo <= hi then hi - lo + 1 else 0
    ensures forall i :: 0 <= i < |Span(lo, hi)| ==> Span(lo, hi)[i] == lo + i
  {
    if lo < hi {
      SpanIs(lo, hi - 1);
    }
  }
}
