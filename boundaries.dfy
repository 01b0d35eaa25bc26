/** The stack of open multipart boundaries that `Message#to_mbox` keeps
    while it writes a message's parts in order: the boundary on top is the
    one a MIME part header is introduced with. */
module Boundaries {
  import opened Wrappers
  import opened Strings
  import opened Names
  import opened MimeParts

  /** The text `child?` compares: the part's name without `.MIME`. */
  function Stem(p: MimePart): string {
    RemoveAll(p.name, ".MIME")
  }

  /** A MIME part's stem is its path. */
  lemma StemOfMime(p: MimePart, path: string)
    requires p.name == path + ".MIME" && 'E' !in path
    ensures Stem(p) == path
  {
    RemoveAllSuffix(path, ".MIME");
  }

  /** `child?(p1, p2)` as written: everything is inside a HEADER;
      otherwise the stem of `p2` must start with the stem of `p1`. */
  predicate IsChild(p1: MimePart, p2: MimePart) {
    p1.kind == Header || StartsWith(Stem(p2), Stem(p1))
  }

  /** `child?` as intended: the stem of `p2` is that of `p1` or continues
      it after a dot. */
  predicate Encloses(p1: MimePart, p2: MimePart) {
    p1.kind == Header || Stem(p2) == Stem(p1) || StartsWith(Stem(p2), Stem(p1) + ".")
  }

  /** A part encloses another exactly when its path components lead the
      other's. */
  lemma EnclosesMeaning(p1: MimePart, p2: MimePart)
    ensures Encloses(p1, p2) <==> p1.kind == Header || Fields(Stem(p1), '.') <= Fields(Stem(p2), '.')
  {
    FieldsPrefix(Stem(p1), Stem(p2), '.');
  }

  /** The correction only narrows `child?`. */
  lemma EnclosesIsChild(p1: MimePart, p2: MimePart)
    requires Encloses(p1, p2)
    ensures IsChild(p1, p2)
  {
    if p1.kind != Header && Stem(p2) != Stem(p1) {
      var s1, s2 := Stem(p1), Stem(p2);
      assert s2[..|s1|] == (s2[..|s1| + 1])[..|s1|];
    }
  }

  /** Enclosure runs down a chain of MIME parts. */
  lemma EnclosesTransitive(a: MimePart, b: MimePart, c: MimePart)
    requires Encloses(a, b) && Encloses(b, c) && b.kind != Header
    ensures Encloses(a, c)
  {
    EnclosesMeaning(a, b);
    EnclosesMeaning(b, c);
    EnclosesMeaning(a, c);
  }

  /** `child?` takes part 7.10 to lie inside part 7.1, whose path
      components (7, 1) do not lead those of 7.10 (7, 10). */
  lemma IsChildTooWide()
    ensures var p1 := MimePart("7.1" + ".MIME", "7", "7.1", Mime, None, None, Some("inner"));
            var p2 := MimePart("7.10" + ".MIME", "7", "7.10", Mime, None, None, None);
            IsChild(p1, p2) && !Encloses(p1, p2) && !(Fields(Stem(p1), '.') <= Fields(Stem(p2), '.'))
  {
    var p1 := MimePart("7.1" + ".MIME", "7", "7.1", Mime, None, None, Some("inner"));
    var p2 := MimePart("7.10" + ".MIME", "7", "7.10", Mime, None, None, None);
    StemOfMime(p1, "7.1");
    StemOfMime(p2, "7.10");
    assert Stem(p2)[3] != '.';
    EnclosesMeaning(p1, p2);
  }

  // ---------------------------------------------------------------------
  // The stack as a value

  /** `top`: the boundary of the entry on top, if any. */
  function TopOf(st: seq<MimePart>): Option<string> {
    if st == [] then None else st[0].boundary
  }

  /** `enter(p)`: a MIME part pops the top entry when it is not a child of
      it, and keeps the stack otherwise; with an empty stack
      `child?(nil, p)` fails on `nil`. Any other part leaves the stack
      alone. */
  function Entered(st: seq<MimePart>, p: MimePart): Result<seq<MimePart>> {
    if p.kind != Mime then Ok(st)
    else if st == [] then Err(NoOwner(p.name))
    else if IsChild(st[0], p) then Ok(st)
    else Ok(st[1..])
  }

  /** `exit(p)`: a HEADER starts the stack afresh; a MIME part that
      declares a boundary opens a multipart. */
  function Exited(st: seq<MimePart>, p: MimePart): (r: seq<MimePart>)
    ensures p.kind == Header ==> r == [p]
    ensures p.kind == Mime && p.boundary.Some? ==> |r| > 0 && r[1..] == st && TopOf(r) == p.boundary
    ensures p.kind != Header && !(p.kind == Mime && p.boundary.Some?) ==> r == st
  {
    if p.kind == Header then [p]
    else if p.kind == Mime && p.boundary.Some? then [p] + st
    else st
  }

  /** Entering fails, with the part's name, exactly for a MIME part met
      with an empty stack. */
  lemma EnteredFails(st: seq<MimePart>, p: MimePart)
    ensures Entered(st, p).Err? <==> p.kind == Mime && st == []
    ensures Entered(st, p).Err? ==> Entered(st, p).error == NoOwner(p.name)
  {
  }

  /** Entering pops at most one entry: a MIME part keeps the stack when
      it is a child of the top entry and pops that entry when it is not;
      any other part keeps the stack. */
  lemma EnteredPops(st: seq<MimePart>, p: MimePart)
    ensures p.kind != Mime ==> Entered(st, p) == Ok(st)
    ensures p.kind == Mime && st != [] ==>
      (Entered(st, p) == Ok(st) <==> IsChild(st[0], p)) &&
      (Entered(st, p) == Ok(st[1..]) <==> !IsChild(st[0], p))
  {
    if st != [] {
      assert |st[1..]| != |st|;
    }
  }

  /** A stack whose bottom entry is a HEADER: the stack a message's
      HEADER leaves behind it. */
  predicate HeaderBottom(st: seq<MimePart>) {
    st != [] && st[|st| - 1].kind == Header
  }

  /** Over a HEADER, entering never fails and never pops the HEADER: every
      part is a child of a HEADER, so only an entry above it is popped. */
  lemma EnteredKeepsHeader(st: seq<MimePart>, p: MimePart)
    requires HeaderBottom(st)
    ensures Entered(st, p).Ok? && HeaderBottom(Entered(st, p).value)
  {
    if p.kind == Mime && !IsChild(st[0], p) {
      assert |st| > 1;
      assert st[1..][|st| - 2] == st[|st| - 1];
    }
  }

  /** Leaving a part keeps a HEADER at the bottom, and leaving a HEADER
      puts one there. */
  lemma ExitedKeepsHeader(st: seq<MimePart>, p: MimePart)
    requires HeaderBottom(st) || p.kind == Header
    ensures HeaderBottom(Exited(st, p))
  {
    if p.kind == Mime && p.boundary.Some? {
      assert Exited(st, p)[|st|] == st[|st| - 1];
    }
  }

  // ---------------------------------------------------------------------
  // The stack as intended

  /** `enter(p)` as intended: a MIME part pops every entry that does not
      enclose it, so that the top is its innermost open multipart. */
  function EnteredIntended(st: seq<MimePart>, p: MimePart): Result<seq<MimePart>>
    decreases |st|
  {
    if p.kind != Mime then Ok(st)
    else if st == [] then Err(NoOwner(p.name))
    else if Encloses(st[0], p) then Ok(st)
    else EnteredIntended(st[1..], p)
  }

  /** As intended, entering a MIME part fails, with the part's name,
      exactly when no entry of the stack encloses it. */
  lemma {:induction false} IntendedFails(st: seq<MimePart>, p: MimePart)
    requires p.kind == Mime
    ensures EnteredIntended(st, p).Err? <==> forall i | 0 <= i < |st| :: !Encloses(st[i], p)
    ensures EnteredIntended(st, p).Err? ==> EnteredIntended(st, p).error == NoOwner(p.name)
    decreases |st|
  {
    if st != [] && !Encloses(st[0], p) {
      IntendedFails(st[1..], p);
      forall i | 0 < i < |st| ensures st[i] == st[1..][i - 1] { }
    }
  }

  /** As intended, entering pops exactly the entries above the first that
      encloses the part. */
  lemma {:induction false} IntendedPops(st: seq<MimePart>, p: MimePart)
    requires p.kind == Mime && EnteredIntended(st, p).Ok?
    ensures exists k | 0 <= k < |st| ::
      EnteredIntended(st, p).value == st[k..] && Encloses(st[k], p) &&
      forall i | 0 <= i < k :: !Encloses(st[i], p)
    decreases |st|
  {
    if Encloses(st[0], p) {
      assert st[0..] == st;
    } else {
      var t := st[1..];
      IntendedPops(t, p);
      var k :| 0 <= k < |t| && EnteredIntended(t, p).value == t[k..] && Encloses(t[k], p) &&
        forall i | 0 <= i < k :: !Encloses(t[i], p);
      assert t[k..] == st[k + 1..];
      forall i | 0 < i < k + 1 ensures !Encloses(st[i], p) {
        assert st[i] == t[i - 1];
      }
    }
  }

  /** A well-kept stack: a HEADER at the bottom and above it MIME parts
      with boundaries, each enclosed by the entry below. */
  predicate Nested(st: seq<MimePart>) {
    st != [] && st[|st| - 1].kind == Header &&
    forall i | 0 <= i < |st| - 1 :: st[i].kind == Mime && st[i].boundary.Some? && Encloses(st[i + 1], st[i])
  }

  /** In a well-kept stack every entry below an entry encloses it. */
  lemma {:induction false} NestedEncloses(st: seq<MimePart>, i: nat, j: nat)
    requires Nested(st) && i < j < |st|
    ensures Encloses(st[j], st[i])
    decreases j - i
  {
    if j > i + 1 {
      NestedEncloses(st, i + 1, j);
      EnclosesTransitive(st[j], st[i + 1], st[i]);
    }
  }

  /** On a well-kept stack, every entry below one that encloses a part
      encloses it too. */
  lemma BelowEncloses(st: seq<MimePart>, k: nat, p: MimePart)
    requires Nested(st) && k < |st| && Encloses(st[k], p)
    ensures forall i | k <= i < |st| :: Encloses(st[i], p)
  {
    forall i | k < i < |st| ensures Encloses(st[i], p) {
      NestedEncloses(st, k, i);
      EnclosesTransitive(st[i], st[k], p);
    }
  }

  /** As intended, entering on a well-kept stack never fails, and leaves
      on top the innermost open multipart enclosing the part, with every
      remaining entry enclosing it. */
  lemma IntendedNested(st: seq<MimePart>, p: MimePart)
    requires Nested(st)
    ensures EnteredIntended(st, p).Ok?
    ensures p.kind == Mime ==>
      forall i | 0 <= i < |EnteredIntended(st, p).value| :: Encloses(EnteredIntended(st, p).value[i], p)
    ensures Nested(EnteredIntended(st, p).value)
  {
    if p.kind == Mime {
      IntendedFails(st, p);
      assert Encloses(st[|st| - 1], p);
      IntendedPops(st, p);
      var r := EnteredIntended(st, p).value;
      var k :| 0 <= k < |st| && r == st[k..] && Encloses(st[k], p) && forall i | 0 <= i < k :: !Encloses(st[i], p);
      BelowEncloses(st, k, p);
      NestedSuffix(st, k);
    }
  }

  /** What is left of a well-kept stack after popping is well kept. */
  lemma NestedSuffix(st: seq<MimePart>, k: nat)
    requires Nested(st) && k < |st|
    ensures Nested(st[k..])
  {
    var r := st[k..];
    forall i | 0 <= i < |r| - 1 ensures r[i].kind == Mime && r[i].boundary.Some? && Encloses(r[i + 1], r[i]) {
      assert r[i] == st[k + i] && r[i + 1] == st[k + i + 1];
    }
  }

  /** As intended, entering and leaving a part keeps the stack well kept. */
  lemma IntendedExitedNested(st: seq<MimePart>, p: MimePart)
    requires Nested(st)
    ensures EnteredIntended(st, p).Ok? && Nested(Exited(EnteredIntended(st, p).value, p))
  {
    IntendedNested(st, p);
    var r := EnteredIntended(st, p).value;
    if p.kind == Mime && p.boundary.Some? {
      var e := Exited(r, p);
      assert e[0] == p && e[1..] == r;
      forall i | 0 <= i < |e| - 1 ensures e[i].kind == Mime && e[i].boundary.Some? && Encloses(e[i + 1], e[i]) {
        if i > 0 { assert e[i] == r[i - 1]; assert e[i + 1] == r[i]; }
      }
    }
  }

  /** Where the program and the intent agree: a MIME part enclosed by the
      top entry keeps the stack either way, and one that is not a child of
      the top entry but is enclosed by the next pops exactly the top
      either way. */
  lemma EnteredAgrees(st: seq<MimePart>, p: MimePart)
    requires p.kind == Mime && st != []
    ensures Encloses(st[0], p) ==> Entered(st, p) == EnteredIntended(st, p) == Ok(st)
    ensures !IsChild(st[0], p) && |st| > 1 && Encloses(st[1], p) ==>
      Entered(st, p) == EnteredIntended(st, p) == Ok(st[1..])
  {
    if Encloses(st[0], p) {
      EnclosesIsChild(st[0], p);
    } else if |st| > 1 {
      assert st[1..][0] == st[1];
    }
  }

  // ---------------------------------------------------------------------
  // The walk through a message

  /** The boundaries on top just after entering and just after leaving
      each part in turn. */
  function Tops(st: seq<MimePart>, ps: seq<MimePart>): Result<seq<Option<string>>>
    decreases |ps|
  {
    if ps == [] then Ok([])
    else match Entered(st, ps[0])
      case Err(e) => Err(e)
      case Ok(inner) =>
        var after := Exited(inner, ps[0]);
        match Tops(after, ps[1..])
        case Err(e) => Err(e)
        case Ok(rest) => Ok([TopOf(inner), TopOf(after)] + rest)
  }

  /** The HEADER of message `b`, declaring a boundary. */
  function HeaderOf(b: string, boundary: Option<string>): MimePart {
    MimePart(b + ".HEADER", b, b, Header, None, None, boundary)
  }

  /** The MIME part header of message `b` at path `b + sub`. */
  function MimeAt(b: string, sub: string, boundary: Option<string>): MimePart {
    MimePart(b + sub + ".MIME", b, b + sub, Mime, None, None, boundary)
  }

  lemma StemAt(b: string, sub: string, boundary: Option<string>)
    requires IsDigits(b) && 'E' !in sub
    ensures Stem(MimeAt(b, sub, boundary)) == b + sub
  {
    forall i | 0 <= i < |b + sub| ensures (b + sub)[i] != 'E' {
      if i < |b| { assert IsDigit(b[i]); } else { assert (b + sub)[i] == sub[i - |b|]; }
    }
    StemOfMime(MimeAt(b, sub, boundary), b + sub);
  }

  /** The part at `sub + more` is a child of the one at `sub`. */
  lemma IsChildAt(b: string, sub: string, more: string, b1: Option<string>, b2: Option<string>)
    requires IsDigits(b) && 'E' !in sub && 'E' !in more
    ensures IsChild(MimeAt(b, sub, b1), MimeAt(b, sub + more, b2))
  {
    StemAt(b, sub, b1);
    assert 'E' !in sub + more by { assert forall i | 0 <= i < |sub + more| :: (sub + more)[i] in sub || (sub + more)[i] in more; }
    StemAt(b, sub + more, b2);
    var s1, s2 := b + sub, b + (sub + more);
    assert s2[..|s1|] == s1;
  }

  /** One step of `Tops`, with the stacks it passes through named. */
  lemma TopsStep(st: seq<MimePart>, p: MimePart, ps: seq<MimePart>, inner: seq<MimePart>,
                 rest: seq<Option<string>>, top: Option<string>, next: Option<string>)
    requires Entered(st, p) == Ok(inner) && Tops(Exited(inner, p), ps) == Ok(rest)
    requires TopOf(inner) == top && TopOf(Exited(inner, p)) == next
    ensures Tops(st, [p] + ps) == Ok([top, next] + rest)
  {
    assert ([p] + ps)[1..] == ps;
  }

  /** The walk the tests take through a message `b` (605242 there): a
      related multipart holding an alternative one with a text and an HTML
      part, then an image in the related part, then an attachment. */
  lemma StackExample(b: string)
    requires IsDigits(b)
    ensures Tops([HeaderOf(b, Some("Header"))],
                 [MimeAt(b, ".1", Some("rel-level1")), MimeAt(b, ".1.1", Some("alt-level2")),
                  MimeAt(b, ".1.1.1", None), MimeAt(b, ".1.1.2", None),
                  MimeAt(b, ".1.2", None), MimeAt(b, ".2", None)]) ==
      Ok([Some("Header"), Some("rel-level1"),
          Some("rel-level1"), Some("alt-level2"),
          Some("alt-level2"), Some("alt-level2"),
          Some("alt-level2"), Some("alt-level2"),
          Some("rel-level1"), Some("rel-level1"),
          Some("Header"), Some("Header")])
  {
    var h := HeaderOf(b, Some("Header"));
    var rel, alt := MimeAt(b, ".1", Some("rel-level1")), MimeAt(b, ".1.1", Some("alt-level2"));
    var text, html := MimeAt(b, ".1.1.1", None), MimeAt(b, ".1.1.2", None);
    var image, attachment := MimeAt(b, ".1.2", None), MimeAt(b, ".2", None);
    var H, R, L := Some("Header"), Some("rel-level1"), Some("alt-level2");
    StackWalkInner(b);
    StackExampleTail(b);
    assert Exited([rel, h], alt) == [alt, rel, h];
    TopsStep([rel, h], alt, [text, html, image, attachment], [rel, h], [L, L, L, L, R, R, H, H], R, L);
    assert [alt] + [text, html, image, attachment] == [alt, text, html, image, attachment];
    assert [R, L] + [L, L, L, L, R, R, H, H] == [R, L, L, L, L, L, R, R, H, H];
    assert Exited([h], rel) == [rel, h];
    TopsStep([h], rel, [alt, text, html, image, attachment], [h], [R, L, L, L, L, L, R, R, H, H], H, R);
    assert [rel] + [alt, text, html, image, attachment] == [rel, alt, text, html, image, attachment];
    assert [H, R] + [R, L, L, L, L, L, R, R, H, H] == [H, R, R, L, L, L, L, L, R, R, H, H];
  }

  /** The walk from inside the alternative multipart to the end. */
  lemma StackExampleTail(b: string)
    requires IsDigits(b)
    ensures var h := HeaderOf(b, Some("Header"));
      var rel, alt := MimeAt(b, ".1", Some("rel-level1")), MimeAt(b, ".1.1", Some("alt-level2"));
      var L, R, H := Some("alt-level2"), Some("rel-level1"), Some("Header");
      Tops([alt, rel, h], [MimeAt(b, ".1.1.1", None), MimeAt(b, ".1.1.2", None),
                           MimeAt(b, ".1.2", None), MimeAt(b, ".2", None)]) ==
      Ok([L, L, L, L, R, R, H, H])
  {
    var h := HeaderOf(b, Some("Header"));
    var rel, alt := MimeAt(b, ".1", Some("rel-level1")), MimeAt(b, ".1.1", Some("alt-level2"));
    var text, html := MimeAt(b, ".1.1.1", None), MimeAt(b, ".1.1.2", None);
    var image, attachment := MimeAt(b, ".1.2", None), MimeAt(b, ".2", None);
    var H, R, L := Some("Header"), Some("rel-level1"), Some("alt-level2");
    StackWalkInner(b);
    StackExampleHtml(b);
    TopsStep([alt, rel, h], text, [html, image, attachment], [alt, rel, h], [L, L, R, R, H, H], L, L);
    assert [text] + [html, image, attachment] == [text, html, image, attachment];
    assert [L, L] + [L, L, R, R, H, H] == [L, L, L, L, R, R, H, H];
  }

  /** The walk from the HTML part to the end. */
  lemma StackExampleHtml(b: string)
    requires IsDigits(b)
    ensures var h := HeaderOf(b, Some("Header"));
      var rel, alt := MimeAt(b, ".1", Some("rel-level1")), MimeAt(b, ".1.1", Some("alt-level2"));
      var L, R, H := Some("alt-level2"), Some("rel-level1"), Some("Header");
      Tops([alt, rel, h], [MimeAt(b, ".1.1.2", None), MimeAt(b, ".1.2", None), MimeAt(b, ".2", None)]) ==
      Ok([L, L, R, R, H, H])
  {
    var h := HeaderOf(b, Some("Header"));
    var rel, alt := MimeAt(b, ".1", Some("rel-level1")), MimeAt(b, ".1.1", Some("alt-level2"));
    var html := MimeAt(b, ".1.1.2", None);
    var image, attachment := MimeAt(b, ".1.2", None), MimeAt(b, ".2", None);
    var H, R, L := Some("Header"), Some("rel-level1"), Some("alt-level2");
    StackWalkInner(b);
    StackExampleEnd(b);
    TopsStep([alt, rel, h], html, [image, attachment], [alt, rel, h], [R, R, H, H], L, L);
    assert [html] + [image, attachment] == [html, image, attachment];
    assert [L, L] + [R, R, H, H] == [L, L, R, R, H, H];
  }

  /** The walk through the image and the attachment. */
  lemma StackExampleEnd(b: string)
    requires IsDigits(b)
    ensures var h, rel := HeaderOf(b, Some("Header")), MimeAt(b, ".1", Some("rel-level1"));
      var alt := MimeAt(b, ".1.1", Some("alt-level2"));
      var R, H := Some("rel-level1"), Some("Header");
      Tops([alt, rel, h], [MimeAt(b, ".1.2", None), MimeAt(b, ".2", None)]) == Ok([R, R, H, H])
  {
    var h, rel := HeaderOf(b, Some("Header")), MimeAt(b, ".1", Some("rel-level1"));
    var alt := MimeAt(b, ".1.1", Some("alt-level2"));
    var image, attachment := MimeAt(b, ".1.2", None), MimeAt(b, ".2", None);
    var H, R := Some("Header"), Some("rel-level1");
    StackWalkOuter(b);
    TopsStep([rel, h], attachment, [], [h], [], H, H);
    assert [attachment] + [] == [attachment] && [H, H] + [] == [H, H];
    TopsStep([alt, rel, h], image, [attachment], [rel, h], [H, H], R, R);
    assert [image] + [attachment] == [image, attachment] && [R, R] + [H, H] == [R, R, H, H];
  }

  /** Entering the multiparts and the parts of the alternative one: each
      is a child of the entry on top, so nothing is popped. */
  lemma StackWalkInner(b: string)
    requires IsDigits(b)
    ensures var h := HeaderOf(b, Some("Header"));
      var rel, alt := MimeAt(b, ".1", Some("rel-level1")), MimeAt(b, ".1.1", Some("alt-level2"));
      && Entered([h], rel) == Ok([h])
      && Entered([rel, h], alt) == Ok([rel, h])
      && Entered([alt, rel, h], MimeAt(b, ".1.1.1", None)) == Ok([alt, rel, h])
      && Entered([alt, rel, h], MimeAt(b, ".1.1.2", None)) == Ok([alt, rel, h])
  {
    assert ".1" + ".1" == ".1.1";
    IsChildAt(b, ".1", ".1", Some("rel-level1"), Some("alt-level2"));
    assert ".1.1" + ".1" == ".1.1.1";
    IsChildAt(b, ".1.1", ".1", Some("alt-level2"), None);
    assert ".1.1" + ".2" == ".1.1.2";
    IsChildAt(b, ".1.1", ".2", Some("alt-level2"), None);
  }

  /** Entering the image pops the alternative multipart; entering the
      attachment pops the related one. */
  lemma StackWalkOuter(b: string)
    requires IsDigits(b)
    ensures var h := HeaderOf(b, Some("Header"));
      var rel, alt := MimeAt(b, ".1", Some("rel-level1")), MimeAt(b, ".1.1", Some("alt-level2"));
      && Entered([alt, rel, h], MimeAt(b, ".1.2", None)) == Ok([rel, h])
      && Entered([rel, h], MimeAt(b, ".2", None)) == Ok([h])
  {
    var h := HeaderOf(b, Some("Header"));
    var rel, alt := MimeAt(b, ".1", Some("rel-level1")), MimeAt(b, ".1.1", Some("alt-level2"));
    var image, attachment := MimeAt(b, ".1.2", None), MimeAt(b, ".2", None);
    assert !IsChild(alt, image) by {
      StemAt(b, ".1.1", Some("alt-level2"));
      StemAt(b, ".1.2", None);
      assert (b + ".1.2")[|b| + 3] != (b + ".1.1")[|b| + 3];
    }
    assert !IsChild(rel, attachment) by {
      StemAt(b, ".1", Some("rel-level1"));
      StemAt(b, ".2", None);
      assert (b + ".2")[|b| + 1] != (b + ".1")[|b| + 1];
    }
    assert [alt, rel, h][1..] == [rel, h];
    assert [rel, h][1..] == [h];
  }

  /** Leaving a nested multipart for a part two levels up: `enter` pops
      one entry and leaves the related part's boundary on top, though
      part 2 lies only inside the HEADER; popping every entry that does
      not enclose it reaches the HEADER's boundary. */
  lemma EnteredStale(b: string)
    requires IsDigits(b)
    ensures var h, rel, alt := HeaderOf(b, Some("Header")), MimeAt(b, ".1", Some("rel-level1")), MimeAt(b, ".1.1", Some("alt-level2"));
      var attachment := MimeAt(b, ".2", None);
      Entered([alt, rel, h], attachment) == Ok([rel, h]) &&
      TopOf(Entered([alt, rel, h], attachment).value) == Some("rel-level1") &&
      !Encloses(rel, attachment) &&
      EnteredIntended([alt, rel, h], attachment) == Ok([h]) &&
      TopOf(EnteredIntended([alt, rel, h], attachment).value) == Some("Header")
  {
    var h := HeaderOf(b, Some("Header"));
    var rel, alt := MimeAt(b, ".1", Some("rel-level1")), MimeAt(b, ".1.1", Some("alt-level2"));
    var attachment := MimeAt(b, ".2", None);
    StemAt(b, ".1", Some("rel-level1"));
    StemAt(b, ".1.1", Some("alt-level2"));
    StemAt(b, ".2", None);
    assert !IsChild(alt, attachment) by {
      assert (b + ".2")[|b| + 1] != (b + ".1.1")[|b| + 1];
    }
    assert !Encloses(alt, attachment) by {
      assert (b + ".2")[|b| + 1] != (b + ".1.1" + ".")[|b| + 1];
    }
    assert !Encloses(rel, attachment) by {
      assert (b + ".2")[|b| + 1] != (b + ".1" + ".")[|b| + 1];
    }
    assert [alt, rel, h][1..] == [rel, h];
    assert [rel, h][1..] == [h];
    assert Entered([alt, rel, h], attachment) == Ok([rel, h]);
    assert EnteredIntended([rel, h], attachment) == EnteredIntended([h], attachment);
    assert EnteredIntended([alt, rel, h], attachment) == Ok([h]);
  }

  // ---------------------------------------------------------------------
  // The stack as an object

  class BoundaryStack {
    var stack: seq<MimePart>

    constructor ()
      ensures stack == []
    {
      stack := [];
    }

    function Top(): Option<string>
      reads this
    {
      TopOf(stack)
    }

    /** `enter(p)`: pops the top entry when a MIME part is not its child;
        fails when a MIME part meets an empty stack. */
    method Enter(p: MimePart) returns (r: Outcome)
      modifies this
      ensures r == Pass <==> Entered(old(stack), p).Ok?
      ensures r == Pass ==> stack == Entered(old(stack), p).value
      ensures r.Fail? ==> r.error == Entered(old(stack), p).error && stack == old(stack)
    {
      if p.kind == Mime {
        if stack == [] {
          return Fail(NoOwner(p.name));
        }
        if !IsChild(stack[0], p) {
          stack := stack[1..];
        }
      }
      return Pass;
    }

    /** `exit(p)`. */
    method Exit(p: MimePart)
      modifies this
      ensures stack == Exited(old(stack), p)
    {
      if p.kind == Header {
        stack := [p];
      } else if p.kind == Mime && p.boundary.Some? {
        stack := [p] + stack;
      }
    }
  }
}
