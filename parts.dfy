/** A part file of a dumped message: its name classified, its header
    block scanned, its place in the message order (`<=>`) and the text it
    contributes to the mbox. The part files themselves are a map from
    file name to content. */
module MimeParts {
  import opened Wrappers
  import opened Strings
  import opened Names
  import opened HeaderScan
  import opened Sorting

  /** The sender written for a part whose header has no From line. */
  const FakeSender := "Fake Sender <fake@example.org>"

  /** A part as `MimePart.new` leaves it. The three scanned values are
      `nil` (`None`) for parts whose file is not read at construction. */
  datatype MimePart = MimePart(
    name: string, base: string, path: string, kind: Kind,
    from: Option<string>, messageId: Option<string>, boundary: Option<string>)

  /** The kinds whose file is opened and scanned when the part is made. */
  predicate Scanned(k: Kind) {
    k == Plain || k == Mime || k == Header
  }

  /** What `MimePart.new(s)` yields, reading the part file from `files`. */
  function MakePart(s: string, files: map<string, string>): (r: Result<MimePart>)
    ensures r.Ok? ==> r.value.name == s && Classify(s) == Ok(Name(r.value.base, r.value.path, r.value.kind))
    ensures r.Ok? ==> (r.value.from.Some? <==> Scanned(r.value.kind))
    ensures r.Ok? && !Scanned(r.value.kind) ==> r.value.messageId.None? && r.value.boundary.None?
    ensures Classify(s).Err? ==> r == Err(BadName(s))
    ensures Classify(s).Ok? && Scanned(Classify(s).value.kind) && s !in files ==> r == Err(Unreadable(s))
  {
    match Classify(s)
    case Err(e) => Err(e)
    case Ok(n) =>
      if !Scanned(n.kind) then Ok(MimePart(s, n.base, n.path, n.kind, None, None, None))
      else if s !in files then Err(Unreadable(s))
      else
        match ScanText(files[s])
        case Err(e) => Err(e)
        case Ok(info) => Ok(MimePart(s, n.base, n.path, n.kind, Some(info.from.GetOr(FakeSender)), info.messageId, info.boundary))
  }

  /** A scanned part carries the sender, message id and boundary that the
      last matching header lines of its file give, and the fake sender
      when there is no From line. */
  lemma MakePartScans(s: string, files: map<string, string>)
    requires MakePart(s, files).Ok? && Scanned(MakePart(s, files).value.kind)
    ensures s in files && ScanText(files[s]).Ok?
    ensures var p, info := MakePart(s, files).value, ScanText(files[s]).value;
      (info.from.Some? ==> p.from == info.from) && (info.from.None? ==> p.from == Some(FakeSender)) &&
      p.messageId == info.messageId && p.boundary == info.boundary
  {
  }

  /** `MimePart.new(s)`: classifies the name, then runs a `HeaderReader`
      over the part file when the kind calls for it. */
  method NewPart(s: string, files: map<string, string>) returns (r: Result<MimePart>)
    ensures r == MakePart(s, files)
  {
    var c := Classify(s);
    if c.Err? {
      return Err(c.error);
    }
    var n := c.value;
    if !Scanned(n.kind) {
      return Ok(MimePart(s, n.base, n.path, n.kind, None, None, None));
    }
    if s !in files {
      return Err(Unreadable(s));
    }
    var h := new HeaderReader(files[s]);
    var o := h.ScanHeaders();
    if o.Fail? {
      return Err(o.error);
    }
    return Ok(MimePart(s, n.base, n.path, n.kind, Some(h.from.GetOr(FakeSender)), h.messageId, h.boundary));
  }

  // ---------------------------------------------------------------------
  // Order

  /** The two answers `<=>` gives; it never answers 0. */
  datatype Order = Less | Greater

  function Flip(o: Order): Order {
    if o == Less then Greater else Less
  }

  /** `a <=> b`: by base, then the HEADER first, then by path with a MIME
      header before the body at its own path; any other pair at one path
      is fatal. */
  function Compare(a: MimePart, b: MimePart): Result<Order> {
    if a.base != b.base then Ok(if StrLess(a.base, b.base) then Less else Greater)
    else if a.kind == Header then Ok(Less)
    else if b.kind == Header then Ok(Greater)
    else if a.path == b.path then
      if a.kind == Mime && b.kind == Part then Ok(Less)
      else if a.kind == Part && b.kind == Mime then Ok(Greater)
      else Err(Duplicate(a.path))
    else Ok(if StrLess(a.path, b.path) then Less else Greater)
  }

  predicate Before(a: MimePart, b: MimePart) {
    Compare(a, b) == Ok(Less)
  }

  /** Two parts that `<=>` refuses to order: the same path within one
      message, neither a HEADER, and not a MIME header with its body. */
  predicate Clashing(a: MimePart, b: MimePart) {
    a.base == b.base && a.path == b.path && a.kind != Header && b.kind != Header &&
    {a.kind, b.kind} != {Mime, Part}
  }

  /** `<=>` fails exactly on clashing parts, and then from either side. */
  lemma CompareFails(a: MimePart, b: MimePart)
    ensures Compare(a, b).Err? <==> Clashing(a, b)
    ensures Compare(a, b).Err? <==> Compare(b, a).Err?
    ensures Compare(a, b).Err? ==> Compare(a, b).error == Duplicate(a.path)
  {
    MimeAndPart(a.kind, b.kind);
  }

  lemma MimeAndPart(x: Kind, y: Kind)
    ensures {x, y} == {Mime, Part} <==> (x == Mime && y == Part) || (x == Part && y == Mime)
  {
    if {x, y} == {Mime, Part} {
      assert x in {Mime, Part} && y in {Mime, Part};
      assert Mime in {x, y} && Part in {x, y};
    }
  }

  /** Swapping the operands flips the answer, except between two HEADERs
      of one message, which both answer -1. */
  lemma CompareAntisymmetric(a: MimePart, b: MimePart)
    requires Compare(a, b).Ok?
    ensures !(a.base == b.base && a.kind == Header && b.kind == Header) ==>
      Compare(b, a) == Ok(Flip(Compare(a, b).value))
    ensures a.base == b.base && a.kind == Header && b.kind == Header ==>
      Compare(a, b) == Compare(b, a) == Ok(Less)
  {
    if a.base != b.base {
      StrLessAsymmetric(a.base, b.base);
      StrLessTotal(a.base, b.base);
    } else if a.path != b.path {
      StrLessAsymmetric(a.path, b.path);
      StrLessTotal(a.path, b.path);
    }
  }

  /** A part that follows another is preceded by it from the other side. */
  lemma GreaterFlips(a: MimePart, b: MimePart)
    requires Compare(a, b) == Ok(Greater)
    ensures Before(b, a)
  {
    CompareAntisymmetric(a, b);
  }

  /** `<=>` is transitive wherever it answers. */
  lemma BeforeTransitive(a: MimePart, b: MimePart, c: MimePart)
    requires Before(a, b) && Before(b, c)
    ensures Before(a, c)
  {
    if a.base != b.base || b.base != c.base {
      if a.base != b.base && b.base != c.base {
        StrLessTransitive(a.base, b.base, c.base);
      }
      if a.base == c.base {
        StrLessAsymmetric(a.base, b.base);
      }
    } else if a.kind != Header {
      if a.path != b.path && b.path != c.path {
        StrLessTransitive(a.path, b.path, c.path);
      }
      if a.path == c.path && a.path != b.path {
        StrLessAsymmetric(a.path, b.path);
      }
    }
  }

  /** The test pairs: two HEADERs of different messages, a body against a
      HEADER, a MIME header against an earlier body, a plain message
      against a numbered part; each answered the other way when swapped. */
  lemma CompareExamples()
    ensures Compare(MimePart("1.HEADER", "1", "1", Header, None, None, None),
                    MimePart("2.HEADER", "2", "2", Header, None, None, None)) == Ok(Less)
    ensures Compare(MimePart("2.HEADER", "2", "2", Header, None, None, None),
                    MimePart("1.HEADER", "1", "1", Header, None, None, None)) == Ok(Greater)
    ensures Compare(MimePart("667323.2", "667323", "667323.2", Part, None, None, None),
                    MimePart("667323.HEADER", "667323", "667323", Header, None, None, None)) == Ok(Greater)
    ensures Compare(MimePart("667323.HEADER", "667323", "667323", Header, None, None, None),
                    MimePart("667323.2", "667323", "667323.2", Part, None, None, None)) == Ok(Less)
    ensures Compare(MimePart("120.2.MIME", "120", "120.2", Mime, None, None, None),
                    MimePart("120.1", "120", "120.1", Part, None, None, None)) == Ok(Greater)
    ensures Compare(MimePart("120.1", "120", "120.1", Part, None, None, None),
                    MimePart("120.2.MIME", "120", "120.2", Mime, None, None, None)) == Ok(Less)
    ensures Compare(MimePart("570.", "570", "570", Plain, None, None, None),
                    MimePart("570.1", "570", "570.1", Part, None, None, None)) == Ok(Less)
    ensures Compare(MimePart("570.1", "570", "570.1", Part, None, None, None),
                    MimePart("570.", "570", "570", Plain, None, None, None)) == Ok(Greater)
  {
  }

  // ---------------------------------------------------------------------
  // Sorting a message's parts

  /** The path of the first part, in list order, that clashes with a later one. */
  function Clash(ps: seq<MimePart>): Option<string>
    decreases |ps|
  {
    if ps == [] then None
    else if exists j | 1 <= j < |ps| :: Clashing(ps[0], ps[j]) then Some(ps[0].path)
    else Clash(ps[1..])
  }

  lemma {:induction false} ClashMeaning(ps: seq<MimePart>)
    ensures Clash(ps).None? <==> forall i, j | 0 <= i < j < |ps| :: !Clashing(ps[i], ps[j])
    decreases |ps|
  {
    if ps != [] {
      ClashMeaning(ps[1..]);
      if forall j | 1 <= j < |ps| :: !Clashing(ps[0], ps[j]) {
        forall i, j | 0 < i < j < |ps| ensures Clashing(ps[i], ps[j]) == Clashing(ps[1..][i - 1], ps[1..][j - 1]) {
        }
      }
    }
  }

  /** `parts.sort`: fatal when some pair clashes, otherwise the parts in
      `<=>` order. */
  function SortParts(ps: seq<MimePart>): (r: Result<seq<MimePart>>)
    ensures r.Err? <==> exists i, j | 0 <= i < j < |ps| :: Clashing(ps[i], ps[j])
    ensures r.Ok? ==> multiset(r.value) == multiset(ps)
  {
    ClashMeaning(ps);
    SortPermutes(ps, Before);
    match Clash(ps)
    case Some(path) => Err(Duplicate(path))
    case None => Ok(InsertionSort(ps, Before))
  }

  /** No message holds two HEADERs. */
  predicate OneHeaderEach(ps: seq<MimePart>) {
    forall i, j | 0 <= i < |ps| && 0 <= j < |ps| && ps[i].kind == Header && ps[j].kind == Header &&
      ps[i].base == ps[j].base :: i == j
  }

  /** Among parts no two of which clash, `<=>` orders every pair of
      different parts, one way and never both. */
  lemma BeforeOrders(ps: seq<MimePart>)
    requires Distinct(ps) && OneHeaderEach(ps)
    requires forall i, j | 0 <= i < j < |ps| :: !Clashing(ps[i], ps[j])
    ensures Total((set p | p in ps), Before)
    ensures Asymmetric((set p | p in ps), Before)
    ensures Transitive((set p | p in ps), Before)
  {
    var s := set p | p in ps;
    forall a, b | a in s && b in s && a != b ensures Before(a, b) || Before(b, a) {
      var i :| 0 <= i < |ps| && ps[i] == a;
      var j :| 0 <= j < |ps| && ps[j] == b;
      CompareFails(a, b);
      assert !Clashing(a, b) by {
        if i < j { assert !Clashing(ps[i], ps[j]); } else { assert !Clashing(ps[j], ps[i]); }
      }
      if Compare(a, b) == Ok(Greater) { GreaterFlips(a, b); }
    }
    forall a, b | a in s && b in s && a != b ensures !(Before(a, b) && Before(b, a)) {
      var i :| 0 <= i < |ps| && ps[i] == a;
      var j :| 0 <= j < |ps| && ps[j] == b;
      if Before(a, b) {
        CompareAntisymmetric(a, b);
      }
    }
    BeforeTransitiveAll(s);
  }

  lemma BeforeTransitiveAll(s: set<MimePart>)
    ensures Transitive(s, Before)
  {
    forall a, b, c | a in s && b in s && c in s && Before(a, b) && Before(b, c) ensures Before(a, c) {
      BeforeTransitive(a, b, c);
    }
  }

  /** The sorted parts of a message: every part before every later one. */
  lemma SortPartsOrdered(ps: seq<MimePart>)
    requires Distinct(ps) && OneHeaderEach(ps) && SortParts(ps).Ok?
    ensures Ordered(SortParts(ps).value, Before)
  {
    BeforeOrders(ps);
    SortOrdered(ps, Before);
  }

  /** Whatever algorithm sorts the parts, the result is the same: any
      arrangement of a message's parts that `<=>` orders is the one
      `SortParts` gives. */
  lemma SortPartsUnique(ps: seq<MimePart>, xs: seq<MimePart>)
    requires Distinct(ps) && OneHeaderEach(ps) && SortParts(ps).Ok?
    requires multiset(xs) == multiset(ps) && Ordered(xs, Before)
    ensures SortParts(ps) == Ok(xs)
  {
    BeforeOrders(ps);
    SortPartsOrdered(ps);
    var r := SortParts(ps).value;
    assert (set p | p in r) == (set p | p in ps) by {
      forall p ensures p in r <==> p in ps {
        assert p in r <==> p in multiset(r);
        assert p in ps <==> p in multiset(ps);
      }
    }
    OrderedUnique(r, xs, Before);
  }

  /** Every shuffle of an ordered list of parts, with at most one HEADER,
      sorts back to that list. */
  lemma SortsBack(sorted: seq<MimePart>, ps: seq<MimePart>)
    requires Ordered(sorted, Before) && OneHeaderEach(sorted)
    requires multiset(ps) == multiset(sorted)
    ensures SortParts(ps) == Ok(sorted)
  {
    assert Distinct(sorted) by {
      forall i, j | 0 <= i < j < |sorted| ensures sorted[i] != sorted[j] {
        assert Before(sorted[i], sorted[j]);
      }
    }
    SameElementsDistinct(sorted, ps);
    assert forall p | p in ps :: p in sorted by {
      forall p | p in ps ensures p in sorted {
        assert p in multiset(ps);
      }
    }
    forall i, j | 0 <= i < j < |ps| ensures !Clashing(ps[i], ps[j]) {
      assert ps[i] in sorted && ps[j] in sorted;
      var k :| 0 <= k < |sorted| && sorted[k] == ps[i];
      var l :| 0 <= l < |sorted| && sorted[l] == ps[j];
      CompareFails(ps[i], ps[j]);
      if k > l {
        CompareFails(ps[j], ps[i]);
      }
    }
    assert OneHeaderEach(ps) by {
      forall i, j | 0 <= i < |ps| && 0 <= j < |ps| && ps[i].kind == Header && ps[j].kind == Header &&
        ps[i].base == ps[j].base ensures i == j {
        assert ps[i] in sorted && ps[j] in sorted;
        var k :| 0 <= k < |sorted| && sorted[k] == ps[i];
        var l :| 0 <= l < |sorted| && sorted[l] == ps[j];
      }
    }
    SortPartsUnique(ps, sorted);
  }

  /** Two parts of one message, neither a HEADER, whose paths first
      differ at `k`, are ordered by their paths. */
  lemma PathStep(a: MimePart, b: MimePart, k: nat)
    requires a.base == b.base && a.kind != Header && b.kind != Header
    requires k <= |a.path| && k <= |b.path| && a.path[..k] == b.path[..k]
    requires (k == |a.path| < |b.path|) || (k < |a.path| && k < |b.path| && a.path[k] < b.path[k])
    ensures Before(a, b)
  {
    StrLessAt(a.path, b.path, k);
    StrLessIrreflexive(a.path);
  }

  /** A MIME header comes right before the body at its own path. */
  lemma MimeStep(a: MimePart, b: MimePart)
    requires a.base == b.base && a.kind == Mime && b.kind == Part && a.path == b.path
    ensures Before(a, b)
  {
  }

  /** A part of message 605242, as far as the order is concerned. */
  function Of605242(name: string, path: string, kind: Kind): MimePart {
    MimePart(name, "605242", path, kind, None, None, None)
  }

  /** The parts of the nested multipart message of the tests. */
  const ComplexHeader := Of605242("605242.HEADER", "605242", Header)
  const Mime1 := Of605242("605242.1.MIME", "605242.1", Mime)
  const Mime11 := Of605242("605242.1.1.MIME", "605242.1.1", Mime)
  const Mime111 := Of605242("605242.1.1.1.MIME", "605242.1.1.1", Mime)
  const Body111 := Of605242("605242.1.1.1", "605242.1.1.1", Part)
  const Mime112 := Of605242("605242.1.1.2.MIME", "605242.1.1.2", Mime)
  const Body112 := Of605242("605242.1.1.2", "605242.1.1.2", Part)
  const Mime113 := Of605242("605242.1.1.3.MIME", "605242.1.1.3", Mime)
  const Body113 := Of605242("605242.1.1.3", "605242.1.1.3", Part)
  const Mime12 := Of605242("605242.1.2.MIME", "605242.1.2", Mime)
  const Body12 := Of605242("605242.1.2", "605242.1.2", Part)
  const Mime13 := Of605242("605242.1.3.MIME", "605242.1.3", Mime)
  const Body13 := Of605242("605242.1.3", "605242.1.3", Part)
  const Mime2 := Of605242("605242.2.MIME", "605242.2", Mime)
  const Body2 := Of605242("605242.2", "605242.2", Part)

  /** The nested message in the order it is written out. */
  function ComplexMessage(): seq<MimePart> {
    [ComplexHeader, Mime1, Mime11, Mime111, Body111] +
    [Mime112, Body112, Mime113, Body113, Mime12] +
    [Body12, Mime13, Body13, Mime2, Body2]
  }

  /** Each part of the nested message comes before the next: the HEADER
      first, a MIME header before its body, otherwise by path. */
  lemma ComplexMessageSteps0()
    ensures Before(ComplexHeader, Mime1) && Before(Mime1, Mime11)
  {
    PathStep(Mime1, Mime11, 8);
  }

  lemma ComplexMessageSteps1()
    ensures Before(Mime11, Mime111) && Before(Mime111, Body111)
  {
    PathStep(Mime11, Mime111, 10);
    MimeStep(Mime111, Body111);
  }

  lemma ComplexMessageSteps2()
    ensures Before(Body111, Mime112) && Before(Mime112, Body112)
  {
    PathStep(Body111, Mime112, 11);
    MimeStep(Mime112, Body112);
  }

  lemma ComplexMessageSteps3()
    ensures Before(Body112, Mime113) && Before(Mime113, Body113)
  {
    PathStep(Body112, Mime113, 11);
    MimeStep(Mime113, Body113);
  }

  lemma ComplexMessageSteps4()
    ensures Before(Body113, Mime12) && Before(Mime12, Body12)
  {
    PathStep(Body113, Mime12, 9);
    MimeStep(Mime12, Body12);
  }

  lemma ComplexMessageSteps5()
    ensures Before(Body12, Mime13) && Before(Mime13, Body13)
  {
    PathStep(Body12, Mime13, 9);
    MimeStep(Mime13, Body13);
  }

  lemma ComplexMessageSteps6()
    ensures Before(Body13, Mime2) && Before(Mime2, Body2)
  {
    PathStep(Body13, Mime2, 7);
    MimeStep(Mime2, Body2);
  }

  lemma ComplexMessageChained0()
    ensures Chained([ComplexHeader, Mime1, Mime11, Mime111, Body111], Before)
  {
    ComplexMessageSteps0();
    ComplexMessageSteps1();
    ChainedFive(ComplexHeader, Mime1, Mime11, Mime111, Body111, Before);
  }

  lemma ComplexMessageChained1()
    ensures Chained([Mime112, Body112, Mime113, Body113, Mime12], Before)
  {
    ComplexMessageSteps2();
    ComplexMessageSteps3();
    ComplexMessageSteps4();
    ChainedFive(Mime112, Body112, Mime113, Body113, Mime12, Before);
  }

  lemma ComplexMessageChained2()
    ensures Chained([Body12, Mime13, Body13, Mime2, Body2], Before)
  {
    ComplexMessageSteps5();
    ComplexMessageSteps6();
    ChainedFive(Body12, Mime13, Body13, Mime2, Body2, Before);
  }

  lemma ComplexMessageChained()
    ensures Chained(ComplexMessage(), Before)
  {
    ComplexMessageChained0();
    ComplexMessageChained1();
    ComplexMessageChained2();
    ComplexMessageSteps2();
    ComplexMessageSteps4();
    var a := [ComplexHeader, Mime1, Mime11, Mime111, Body111];
    var b := [Mime112, Body112, Mime113, Body113, Mime12];
    var c := [Body12, Mime13, Body13, Mime2, Body2];
    ChainedAppend(a, b, Before);
    ChainedAppend(a + b, c, Before);
  }

  lemma ComplexMessageOneHeader()
    ensures OneHeaderEach(ComplexMessage())
  {
    var m := ComplexMessage();
    assert forall i | 0 < i < |m| :: m[i].kind != Header;
  }

  /** Every shuffle of the nested message sorts into that order. */
  lemma ComplexMessageSorts(ps: seq<MimePart>)
    requires multiset(ps) == multiset(ComplexMessage())
    ensures SortParts(ps) == Ok(ComplexMessage())
  {
    var m := ComplexMessage();
    ComplexMessageChained();
    ComplexMessageOneHeader();
    BeforeTransitiveAll(set p | p in m);
    ChainedOrdered(m, Before);
    SortsBack(m, ps);
  }

  /** The two-part MIME message of the tests. */
  const Header667323 := MimePart("667323.HEADER", "667323", "667323", Header, None, None, None)
  const Mime667323a := MimePart("667323.1.MIME", "667323", "667323.1", Mime, None, None, None)
  const Body667323a := MimePart("667323.1", "667323", "667323.1", Part, None, None, None)
  const Mime667323b := MimePart("667323.2.MIME", "667323", "667323.2", Mime, None, None, None)
  const Body667323b := MimePart("667323.2", "667323", "667323.2", Part, None, None, None)

  function TwoPartMessage(): seq<MimePart> {
    [Header667323, Mime667323a, Body667323a, Mime667323b, Body667323b]
  }

  /** However its parts were added, the two-part message sorts to HEADER,
      then each MIME header followed by its body. */
  lemma TwoPartMessageSorts(ps: seq<MimePart>)
    requires multiset(ps) == multiset(TwoPartMessage())
    ensures SortParts(ps) == Ok(TwoPartMessage())
  {
    var m := TwoPartMessage();
    TwoPartMessageChained();
    TwoPartMessageOneHeader();
    BeforeTransitiveAll(set p | p in m);
    ChainedOrdered(m, Before);
    SortsBack(m, ps);
  }

  lemma TwoPartMessageChained()
    ensures Chained(TwoPartMessage(), Before)
  {
    MimeStep(Mime667323a, Body667323a);
    PathStep(Body667323a, Mime667323b, 7);
    MimeStep(Mime667323b, Body667323b);
    ChainedFive(Header667323, Mime667323a, Body667323a, Mime667323b, Body667323b, Before);
  }

  lemma TwoPartMessageOneHeader()
    ensures OneHeaderEach(TwoPartMessage())
  {
    var m := TwoPartMessage();
    assert forall i | 0 < i < |m| :: m[i].kind != Header;
  }

  // ---------------------------------------------------------------------
  // Output

  /** `append_to`: the part file, followed by an empty line unless it
      already ends in one. */
  function Padded(s: string): (r: string)
    ensures StartsWith(r, s) && EndsWith(r, "\n\n")
    ensures r == s <==> EndsWith(s, "\n\n")
    ensures r != s ==> r == s + "\n\n"
  {
    if |s| >= 2 && s[|s| - 2] == '\n' && s[|s| - 1] == '\n' then s else s + "\n\n"
  }

  /** What `to_mbox` writes before the file: a From line for a HEADER or a
      plain message, the enclosing boundary for a MIME header when there
      is one, nothing for a body or a TEXT part. */
  function Lead(p: MimePart, boundary: Option<string>): string {
    match p.kind
    case Header => Puts("From " + p.from.GetOr(""))
    case Plain => Puts("From " + p.from.GetOr(""))
    case Mime => if boundary.Some? then Puts("--" + boundary.value) else ""
    case Part => ""
    case Text => ""
  }

  /** `p.to_mbox(io, boundary)`: the text it writes. */
  function Chunk(p: MimePart, boundary: Option<string>, files: map<string, string>): (r: Result<string>)
    ensures r.Err? <==> p.name !in files
    ensures r.Err? ==> r.error == Unreadable(p.name)
    ensures r.Ok? ==> r.value == Lead(p, boundary) + Padded(files[p.name])
  {
    if p.name !in files then Err(Unreadable(p.name)) else Ok(Lead(p, boundary) + Padded(files[p.name]))
  }

  /** Every chunk ends in an empty line, so the next one starts on a
      line of its own. */
  lemma ChunkEndsBlank(p: MimePart, boundary: Option<string>, files: map<string, string>)
    requires p.name in files
    ensures EndsWith(Chunk(p, boundary, files).value, "\n\n")
  {
    var c := Chunk(p, boundary, files).value;
    var t := Padded(files[p.name]);
    assert c[|c| - |t|..] == t;
    assert c[|c| - 2..] == t[|t| - 2..];
  }

  /** The chunk of a HEADER or a plain message starts a new mbox entry. */
  lemma ChunkStartsEntry(p: MimePart, boundary: Option<string>, files: map<string, string>)
    requires p.name in files && (p.kind == Header || p.kind == Plain)
    ensures StartsWith(Chunk(p, boundary, files).value, "From ")
  {
    var c := Chunk(p, boundary, files).value;
    var l := Puts("From " + p.from.GetOr(""));
    assert c[..|l|] == l;
    assert l[..5] == ("From " + p.from.GetOr(""))[..5];
  }

  /** The chunk of a MIME header inside a multipart opens with its
      enclosing boundary line; without one, and for a body or a TEXT
      part, the chunk is the file alone. */
  lemma ChunkMime(p: MimePart, boundary: Option<string>, files: map<string, string>)
    requires p.name in files
    ensures (p.kind == Mime && boundary.Some?) ==> StartsWith(Chunk(p, boundary, files).value, "--" + boundary.value)
    ensures (p.kind == Part || p.kind == Text || (p.kind == Mime && boundary.None?)) ==>
      Chunk(p, boundary, files).value == Padded(files[p.name])
  {
    if p.kind == Mime && boundary.Some? {
      var c := Chunk(p, boundary, files).value;
      var w := "--" + boundary.value;
      var l := Puts(w);
      assert c[..|l|] == l;
      assert l[..|w|] == w;
      assert c[..|w|] == w;
    }
  }
}
