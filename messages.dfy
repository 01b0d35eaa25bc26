/** A reassembled message (`Message`): the part files of one dumped
    message, kept in the order they were found, and the mbox text it
    renders by walking its parts in `<=>` order with a boundary stack. */
module Messages {
  import opened Wrappers
  import opened Strings
  import opened Names
  import opened Sorting
  import opened MimeParts
  import opened Boundaries

  // ---------------------------------------------------------------------
  // Queries

  /** `find(type)`: the first part of the given kind. */
  function FindKind(ps: seq<MimePart>, k: Kind): Option<MimePart>
    decreases |ps|
  {
    if ps == [] then None
    else if ps[0].kind == k then Some(ps[0])
    else FindKind(ps[1..], k)
  }

  /** `find` answers the first part of the kind asked for, and `nil`
      exactly when there is none. */
  lemma {:induction false} FindKindFirst(ps: seq<MimePart>, k: Kind)
    ensures FindKind(ps, k).None? <==> forall i | 0 <= i < |ps| :: ps[i].kind != k
    ensures FindKind(ps, k).Some? ==> exists i | 0 <= i < |ps| ::
      ps[i] == FindKind(ps, k).value && ps[i].kind == k && forall j | 0 <= j < i :: ps[j].kind != k
    decreases |ps|
  {
    if ps != [] && ps[0].kind != k {
      FindKindFirst(ps[1..], k);
      forall i | 0 < i < |ps| ensures ps[i] == ps[1..][i - 1] { }
      if FindKind(ps, k).Some? {
        var i :| 0 <= i < |ps| - 1 && ps[1..][i] == FindKind(ps, k).value && ps[1..][i].kind == k &&
          forall j | 0 <= j < i :: ps[1..][j].kind != k;
        assert ps[i + 1] == FindKind(ps, k).value;
      }
    }
  }

  /** `plain?`: a message made of one plain message file. */
  predicate IsPlain(ps: seq<MimePart>) {
    |ps| == 1 && ps[0].kind == Plain
  }

  /** `mime?`: a message with a HEADER. */
  predicate IsMime(ps: seq<MimePart>) {
    exists i | 0 <= i < |ps| :: ps[i].kind == Header
  }

  /** A plain message is never a MIME message, and a message is MIME
      exactly when `find(:header)` finds something. */
  lemma PlainIsNotMime(ps: seq<MimePart>)
    ensures IsPlain(ps) ==> !IsMime(ps)
    ensures IsMime(ps) <==> FindKind(ps, Header).Some?
  {
    FindKindFirst(ps, Header);
  }

  // ---------------------------------------------------------------------
  // Rendering

  /** `out` written ahead of whatever `r` writes. */
  function Prefixed(out: string, r: Result<string>): Result<string> {
    match r
    case Ok(s) => Ok(out + s)
    case Err(e) => Err(e)
  }

  /** The text the parts `ps`, already sorted, write when the boundary
      stack starts as `st`: each part is entered, written under the
      boundary then on top, and left. */
  function Emit(ps: seq<MimePart>, st: seq<MimePart>, files: map<string, string>): Result<string>
    decreases |ps|
  {
    if ps == [] then Ok("")
    else
      match Entered(st, ps[0])
      case Err(e) => Err(e)
      case Ok(inner) =>
        match Chunk(ps[0], TopOf(inner), files)
        case Err(e) => Err(e)
        case Ok(c) => Prefixed(c, Emit(ps[1..], Exited(inner, ps[0]), files))
  }

  /** `Message#to_mbox`: the parts sorted by `<=>`, written from an empty
      boundary stack. */
  function Render(ps: seq<MimePart>, files: map<string, string>): Result<string> {
    match SortParts(ps)
    case Err(e) => Err(e)
    case Ok(sorted) => Emit(sorted, [], files)
  }

  /** One part written: entered, written and left. */
  lemma EmitStep(ps: seq<MimePart>, st: seq<MimePart>, files: map<string, string>, inner: seq<MimePart>, c: string)
    requires ps != [] && Entered(st, ps[0]) == Ok(inner) && Chunk(ps[0], TopOf(inner), files) == Ok(c)
    ensures Emit(ps, st, files) == Prefixed(c, Emit(ps[1..], Exited(inner, ps[0]), files))
  {
  }

  lemma PrefixedTwice(out: string, c: string, r: Result<string>)
    ensures Prefixed(out, Prefixed(c, r)) == Prefixed(out + c, r)
  {
    if r.Ok? {
      assert out + (c + r.value) == (out + c) + r.value;
    }
  }

  /** Rendering fails only for a missing part file or a MIME part met
      with an empty boundary stack. */
  lemma {:induction false} EmitFails(ps: seq<MimePart>, st: seq<MimePart>, files: map<string, string>)
    ensures Emit(ps, st, files).Err? ==> exists i | 0 <= i < |ps| ::
      (ps[i].name !in files && Emit(ps, st, files).error == Unreadable(ps[i].name)) ||
      (ps[i].kind == Mime && Emit(ps, st, files).error == NoOwner(ps[i].name))
    decreases |ps|
  {
    if ps != [] && Emit(ps, st, files).Err? {
      if Entered(st, ps[0]).Err? {
        assert ps[0].kind == Mime;
        EnteredFails(st, ps[0]);
      } else {
        var inner := Entered(st, ps[0]).value;
        if Chunk(ps[0], TopOf(inner), files).Ok? {
          EmitFails(ps[1..], Exited(inner, ps[0]), files);
          var i :| 0 <= i < |ps[1..]| &&
            ((ps[1..][i].name !in files && Emit(ps, st, files).error == Unreadable(ps[1..][i].name)) ||
             (ps[1..][i].kind == Mime && Emit(ps, st, files).error == NoOwner(ps[1..][i].name)));
          assert ps[i + 1] == ps[1..][i];
        }
      }
    }
  }

  /** Whatever is written ends in an empty line. */
  lemma {:induction false} EmitEndsBlank(ps: seq<MimePart>, st: seq<MimePart>, files: map<string, string>)
    requires ps != [] && Emit(ps, st, files).Ok?
    ensures EndsWith(Emit(ps, st, files).value, "\n\n")
    decreases |ps|
  {
    var inner := Entered(st, ps[0]).value;
    var c := Chunk(ps[0], TopOf(inner), files).value;
    ChunkEndsBlank(ps[0], TopOf(inner), files);
    var rest := Emit(ps[1..], Exited(inner, ps[0]), files).value;
    if ps[1..] != [] {
      EmitEndsBlank(ps[1..], Exited(inner, ps[0]), files);
      assert (c + rest)[|c + rest| - 2..] == rest[|rest| - 2..];
    } else {
      assert c + rest == c;
    }
  }

  /** Over a HEADER every part is entered without fault, so rendering
      fails only for a missing part file. */
  lemma {:induction false} EmitUnderHeader(ps: seq<MimePart>, st: seq<MimePart>, files: map<string, string>)
    requires HeaderBottom(st) && forall i | 0 <= i < |ps| :: ps[i].name in files
    ensures Emit(ps, st, files).Ok?
    decreases |ps|
  {
    if ps != [] {
      EnteredKeepsHeader(st, ps[0]);
      var inner := Entered(st, ps[0]).value;
      ExitedKeepsHeader(inner, ps[0]);
      EmitUnderHeader(ps[1..], Exited(inner, ps[0]), files);
    }
  }

  /** Sorting a MIME message puts its HEADER first. */
  lemma HeaderFirst(ps: seq<MimePart>, b: string)
    requires forall i | 0 <= i < |ps| :: ps[i].base == b
    requires IsMime(ps) && Distinct(ps) && OneHeaderEach(ps)
    requires forall i, j | 0 <= i < j < |ps| :: !Clashing(ps[i], ps[j])
    ensures SortParts(ps).Ok? && SortParts(ps).value != [] && SortParts(ps).value[0].kind == Header
  {
    SortPartsOrdered(ps);
    var sorted := SortParts(ps).value;
    var i :| 0 <= i < |ps| && ps[i].kind == Header;
    assert ps[i] in multiset(sorted);
    var j :| 0 <= j < |sorted| && sorted[j] == ps[i];
    assert sorted[0] in multiset(ps);
    if j != 0 {
      assert MimeParts.Before(sorted[0], sorted[j]);
    }
  }

  /** Parts headed by a HEADER, all of whose files exist, are written
      without fault as one mbox entry: a From line first, an empty line
      last. */
  lemma EmitFromHeader(ps: seq<MimePart>, files: map<string, string>)
    requires ps != [] && ps[0].kind == Header
    requires forall i | 0 <= i < |ps| :: ps[i].name in files
    ensures Emit(ps, [], files).Ok?
    ensures StartsWith(Emit(ps, [], files).value, "From ")
    ensures EndsWith(Emit(ps, [], files).value, "\n\n")
  {
    var first := ps[0];
    ChunkStartsEntry(first, None, files);
    var c := Chunk(first, None, files).value;
    EmitUnderHeader(ps[1..], [first], files);
    var rest := Emit(ps[1..], [first], files).value;
    assert Emit(ps, [], files) == Ok(c + rest);
    assert (c + rest)[..5] == c[..5];
    EmitEndsBlank(ps, [], files);
  }

  /** A MIME message, all of whose part files exist, renders without
      fault as one mbox entry: its HEADER comes first, so the text starts
      with a From line, and it ends in an empty line. */
  lemma RenderMime(ps: seq<MimePart>, b: string, files: map<string, string>)
    requires forall i | 0 <= i < |ps| :: ps[i].base == b && ps[i].name in files
    requires IsMime(ps) && Distinct(ps) && OneHeaderEach(ps)
    requires forall i, j | 0 <= i < j < |ps| :: !Clashing(ps[i], ps[j])
    ensures Render(ps, files).Ok?
    ensures StartsWith(Render(ps, files).value, "From ")
    ensures EndsWith(Render(ps, files).value, "\n\n")
  {
    HeaderFirst(ps, b);
    var sorted := SortParts(ps).value;
    forall k | 0 <= k < |sorted| ensures sorted[k].name in files {
      assert sorted[k] in multiset(ps);
    }
    EmitFromHeader(sorted, files);
  }

  /** A plain message renders as a From line and its file. */
  lemma RenderPlain(p: MimePart, files: map<string, string>)
    requires p.kind == Plain && p.name in files
    ensures Render([p], files) == Ok(Puts("From " + p.from.GetOr("")) + Padded(files[p.name]))
  {
    assert [p][1..] == [];
    assert InsertionSort([p], MimeParts.Before) == [p];
    var c := Chunk(p, None, files).value;
    assert Emit([p], [], files) == Prefixed(c, Ok(""));
    assert c + "" == c;
  }

  // ---------------------------------------------------------------------
  // The message as an object

  class Message {
    var parts: seq<MimePart>
    var files: seq<string>

    /** `Message.new(p)`. */
    constructor (p: MimePart)
      ensures parts == [p] && files == [p.name]
    {
      parts := [p];
      files := [p.name];
    }

    /** `m << p`. */
    method Append(p: MimePart)
      modifies this
      ensures parts == old(parts) + [p] && files == old(files) + [p.name]
    {
      files := files + [p.name];
      parts := parts + [p];
    }

    /** `find(type)`. */
    function Find(k: Kind): Option<MimePart>
      reads this
    {
      FindKind(parts, k)
    }

    /** `plain?`. */
    predicate Plain()
      reads this
    {
      IsPlain(parts)
    }

    /** `mime?`. */
    predicate Mime()
      reads this
    {
      IsMime(parts)
    }

    /** `to_mbox(io)`: the text written, or the fault that aborts it. */
    method ToMbox(contents: map<string, string>) returns (r: Result<string>)
      ensures r == Render(parts, contents)
    {
      var sorted := SortParts(parts);
      if sorted.Err? {
        return Err(sorted.error);
      }
      var ps := sorted.value;
      var stack := new BoundaryStack();
      var out := "";
      var i := 0;
      assert ps[0..] == ps;
      assert Prefixed("", Emit(ps, [], contents)) == Emit(ps, [], contents) by {
        if Emit(ps, [], contents).Ok? { assert "" + Emit(ps, [], contents).value == Emit(ps, [], contents).value; }
      }
      while i < |ps|
        invariant 0 <= i <= |ps|
        invariant Emit(ps, [], contents) == Prefixed(out, Emit(ps[i..], stack.stack, contents))
        decreases |ps| - i
      {
        ghost var st := stack.stack;
        var o := stack.Enter(ps[i]);
        if o.Fail? {
          assert ps[i..][0] == ps[i];
          return Err(o.error);
        }
        var c := Chunk(ps[i], stack.Top(), contents);
        if c.Err? {
          assert ps[i..][0] == ps[i];
          return Err(c.error);
        }
        EmitStep(ps[i..], st, contents, stack.stack, c.value);
        assert ps[i..][1..] == ps[i + 1..];
        PrefixedTwice(out, c.value, Emit(ps[i + 1..], Exited(stack.stack, ps[i]), contents));
        out := out + c.value;
        stack.Exit(ps[i]);
        i := i + 1;
      }
      assert ps[i..] == [] && out + "" == out;
      return Ok(out);
    }
  }
}
