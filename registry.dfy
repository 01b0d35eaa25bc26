/** The run's registry of messages (`MessageList`): every part file filed
    under its message's number, the mbox dump of all messages in key
    order, and `finalize`, which settles plain messages that were also
    dumped part by part. */
module Registry {
  import opened Wrappers
  import opened Strings
  import opened Names
  import opened Sorting
  import opened MimeParts
  import opened Messages

  // ---------------------------------------------------------------------
  // Keys

  /** The key a plain duplicate is moved to: `"#{base}:plain"`. */
  function PlainKey(base: string): string {
    base + ":plain"
  }

  lemma PlainKeyInjective()
    ensures forall a, b | PlainKey(a) == PlainKey(b) :: a == b
  {
    forall a, b | PlainKey(a) == PlainKey(b) ensures a == b {
      assert |a| == |b|;
      assert a == PlainKey(a)[..|a|];
    }
  }

  /** A message number names no key of a plain duplicate. */
  lemma DigitsNotPlainKey(b: string, c: string)
    requires IsDigits(b)
    ensures b != PlainKey(c)
  {
    assert PlainKey(c)[|c|] == ':';
  }

  /** The base of a part made from a file name is its message number. */
  lemma MadeBaseDigits(s: string, files: map<string, string>)
    requires MakePart(s, files).Ok?
    ensures IsDigits(MakePart(s, files).value.base)
  {
    var p := MakePart(s, files).value;
    assert p.base == LeadingDigits(p.path);
  }

  /** How the parts of a message sit under its key: each part of a
      message filed by `add` has the key as its base; a plain duplicate
      that `finalize` moved sits alone under `PlainKey` of its base. */
  predicate Keyed(book: map<string, seq<MimePart>>) {
    forall k | k in book :: book[k] != [] && (OfBase(book[k], k) || Moved(book[k], k))
  }

  predicate OfBase(ps: seq<MimePart>, k: string) {
    forall i | 0 <= i < |ps| :: ps[i].base == k
  }

  predicate Moved(ps: seq<MimePart>, k: string) {
    |ps| == 1 && ps[0].kind == Plain && k == PlainKey(ps[0].base)
  }

  // ---------------------------------------------------------------------
  // Filing

  /** `x` appended to the list under `k`, which starts empty. */
  function Appended<T>(m: map<string, seq<T>>, k: string, x: T): map<string, seq<T>> {
    m[k := (if k in m then m[k] else []) + [x]]
  }

  /** Filing a part by its message number keeps every part under its
      own message. */
  lemma FiledKeyed(book: map<string, seq<MimePart>>, p: MimePart)
    requires Keyed(book) && IsDigits(p.base)
    ensures Keyed(Appended(book, p.base, p))
  {
    var r := Appended(book, p.base, p);
    if p.base in book && |book[p.base]| == 1 {
      DigitsNotPlainKey(p.base, book[p.base][0].base);
    }
    assert OfBase(r[p.base], p.base);
  }

  // ---------------------------------------------------------------------
  // Settling one message

  /** What `finalize` leaves of a message, and the plain part it moves
      out, if any. */
  datatype Settlement = Settlement(parts: seq<MimePart>, moved: Option<MimePart>)

  /** `delete` of one part: the first part equal to `x` removed. */
  function RemoveFirst(ps: seq<MimePart>, x: MimePart): seq<MimePart>
    decreases |ps|
  {
    if ps == [] then []
    else if ps[0] == x then ps[1..]
    else [ps[0]] + RemoveFirst(ps[1..], x)
  }

  lemma {:induction false} RemoveFirstCount(ps: seq<MimePart>, x: MimePart)
    requires x in ps
    ensures multiset(RemoveFirst(ps, x)) == multiset(ps) - multiset{x}
    decreases |ps|
  {
    assert ps == [ps[0]] + ps[1..];
    if ps[0] != x {
      RemoveFirstCount(ps[1..], x);
    }
  }

  /** `finalize` on one message: a plain message that was also dumped
      part by part keeps only the plain part when the HEADER has its
      message id, and otherwise gives the plain part up; without a HEADER
      to compare with it is fatal. */
  function Settle(ps: seq<MimePart>): Result<Settlement> {
    match FindKind(ps, Plain)
    case None => Ok(Settlement(ps, None))
    case Some(plain) =>
      if |ps| <= 1 then Ok(Settlement(ps, None))
      else
        match FindKind(ps, Header)
        case None => Err(FunkyDuplicates(plain.base))
        case Some(h) =>
          if h.messageId == plain.messageId then Ok(Settlement([plain], None))
          else Ok(Settlement(RemoveFirst(ps, plain), Some(plain)))
  }

  /** Settling fails exactly for a message of several parts holding a
      plain part but no HEADER; it leaves alone every message without a
      plain part or of one part, and otherwise keeps the plain part alone
      or moves it out. */
  lemma SettleCases(ps: seq<MimePart>)
    ensures Settle(ps).Err? <==>
      |ps| > 1 && (exists i | 0 <= i < |ps| :: ps[i].kind == Plain) && forall i | 0 <= i < |ps| :: ps[i].kind != Header
    ensures (|ps| <= 1 || forall i | 0 <= i < |ps| :: ps[i].kind != Plain) ==> Settle(ps) == Ok(Settlement(ps, None))
    ensures Settle(ps).Ok? && Settle(ps).value.parts != ps ==>
      exists i | 0 <= i < |ps| :: ps[i].kind == Plain &&
        (Settle(ps).value == Settlement([ps[i]], None) ||
         (Settle(ps).value.moved == Some(ps[i]) && multiset(Settle(ps).value.parts) == multiset(ps) - multiset{ps[i]}))
  {
    FindKindFirst(ps, Plain);
    FindKindFirst(ps, Header);
    if FindKind(ps, Plain).Some? && |ps| > 1 && FindKind(ps, Header).Some? {
      var plain := FindKind(ps, Plain).value;
      RemoveFirstCount(ps, plain);
    }
  }

  /** A message that gives its plain part up keeps its HEADER, whose
      message id differs from the plain part's. */
  lemma SettleKeepsHeader(ps: seq<MimePart>)
    requires Settle(ps).Ok? && Settle(ps).value.moved.Some?
    ensures var plain := Settle(ps).value.moved.value;
      plain.kind == Plain && plain in ps &&
      exists h | h in Settle(ps).value.parts :: h.kind == Header && h.messageId != plain.messageId
  {
    FindKindFirst(ps, Plain);
    FindKindFirst(ps, Header);
    var plain := FindKind(ps, Plain).value;
    var h := FindKind(ps, Header).value;
    RemoveFirstCount(ps, plain);
    assert h in multiset(ps);
    assert h in multiset(RemoveFirst(ps, plain));
  }

  /** No message holds two plain parts. */
  predicate OnePlain(ps: seq<MimePart>) {
    forall i, j | 0 <= i < |ps| && 0 <= j < |ps| && ps[i].kind == Plain && ps[j].kind == Plain :: i == j
  }

  /** Removing the only plain part leaves none. */
  lemma {:induction false} RemoveOnlyPlain(ps: seq<MimePart>, plain: MimePart)
    requires OnePlain(ps) && plain in ps && plain.kind == Plain
    ensures forall i | 0 <= i < |RemoveFirst(ps, plain)| :: RemoveFirst(ps, plain)[i].kind != Plain
    decreases |ps|
  {
    var t := ps[1..];
    forall i | 0 <= i < |t| ensures t[i] == ps[i + 1] { }
    if ps[0] != plain {
      assert OnePlain(t);
      RemoveOnlyPlain(t, plain);
      var r := RemoveFirst(t, plain);
      assert ps[0].kind != Plain by {
        var j :| 0 <= j < |ps| && ps[j] == plain;
      }
      forall i | 0 < i < |[ps[0]] + r| ensures ([ps[0]] + r)[i] == r[i - 1] { }
    }
  }

  /** Settling a settled message changes nothing. */
  lemma SettleIdempotent(ps: seq<MimePart>)
    requires OnePlain(ps) && Settle(ps).Ok?
    ensures Settle(Settle(ps).value.parts) == Ok(Settlement(Settle(ps).value.parts, None))
  {
    var s := Settle(ps).value;
    if s.moved.Some? {
      var plain := s.moved.value;
      FindKindFirst(ps, Plain);
      RemoveOnlyPlain(ps, plain);
      FindKindFirst(s.parts, Plain);
    } else if s.parts != ps {
      assert |s.parts| == 1;
    }
  }
  // ---------------------------------------------------------------------
  // Settling every message

  /** The parts `finalize` leaves in a message. */
  function Settled(ps: seq<MimePart>): seq<MimePart> {
    if Settle(ps).Ok? then Settle(ps).value.parts else ps
  }

  /** Some message cannot be settled. */
  predicate Funky(book: map<string, seq<MimePart>>) {
    exists k | k in book :: Settle(book[k]).Err?
  }

  /** Settling moves a plain part out of the message. */
  predicate Moves(ps: seq<MimePart>) {
    Settle(ps).Ok? && Settle(ps).value.moved.Some?
  }

  /** The plain parts moved out of their messages, under the keys they
      move to. */
  function MovedOut(book: map<string, seq<MimePart>>): map<string, MimePart> {
    MovedFrom(book, book.Keys)
  }

  /** The plain parts moved out of the messages under `done`. */
  function MovedFrom(book: map<string, seq<MimePart>>, done: set<string>): map<string, MimePart> {
    PlainKeyInjective();
    map k | k in book && k in done && Moves(book[k]) :: PlainKey(k) := Settle(book[k]).value.moved.value
  }

  /** Settling one more message adds its moved plain part, if any. */
  lemma MovedFromStep(book: map<string, seq<MimePart>>, done: set<string>, k: string)
    requires k in book
    ensures MovedFrom(book, done + {k}) ==
      if Moves(book[k]) then MovedFrom(book, done)[PlainKey(k) := Settle(book[k]).value.moved.value]
      else MovedFrom(book, done)
  {
    PlainKeyInjective();
  }

  /** The gathered plain parts with `moved`, if any, under the key of its
      own base. */
  function Gather(toadd: map<string, MimePart>, moved: Option<MimePart>): map<string, MimePart> {
    if moved.Some? then toadd[PlainKey(moved.value.base) := moved.value] else toadd
  }

  /** The plain part settling gives up, if any. */
  function MovedPart(ps: seq<MimePart>): Option<MimePart> {
    if Settle(ps).Ok? then Settle(ps).value.moved else None
  }

  /** Settling the message under `k`: its plain part, if given up,
      joins the gathered ones under the key of its own base. */
  lemma SettleStep(book: map<string, seq<MimePart>>, done: set<string>, k: string)
    requires Keyed(book) && k in book
    ensures MovedFrom(book, done + {k}) == Gather(MovedFrom(book, done), MovedPart(book[k]))
  {
    MovedFromStep(book, done, k);
    SettledKeyed(book[k], k);
  }

  /** The plain parts gathered by settling the messages under `order`,
      one after the other. */
  function GatherAll(book: map<string, seq<MimePart>>, order: seq<string>): map<string, MimePart>
    requires forall i | 0 <= i < |order| :: order[i] in book
    decreases |order|
  {
    if order == [] then map[]
    else Gather(GatherAll(book, order[..|order| - 1]), MovedPart(book[order[|order| - 1]]))
  }

  /** Settling one more message adds the plain part it gives up, if any. */
  lemma GatherAllSnoc(book: map<string, seq<MimePart>>, order: seq<string>, k: string)
    requires k in book && forall i | 0 <= i < |order| :: order[i] in book
    ensures forall i | 0 <= i < |order + [k]| :: (order + [k])[i] in book
    ensures GatherAll(book, order + [k]) == Gather(GatherAll(book, order), MovedPart(book[k]))
  {
    assert (order + [k])[..|order|] == order;
  }

  /** Whatever the order the messages are settled in, the gathered plain
      parts are the ones moved out of them. */
  lemma {:induction false} GatherAllMoved(book: map<string, seq<MimePart>>, order: seq<string>)
    requires Keyed(book) && forall i | 0 <= i < |order| :: order[i] in book
    ensures GatherAll(book, order) == MovedFrom(book, set k | k in order)
    decreases |order|
  {
    if order == [] {
      assert (set k | k in order) == {};
    } else {
      var front, k := order[..|order| - 1], order[|order| - 1];
      assert order == front + [k];
      GatherAllMoved(book, front);
      SettleStep(book, (set x | x in front), k);
      assert (set x | x in order) == (set x | x in front) + {k};
    }
  }

  /** The parts of every message after `finalize`: each message settled,
      and each moved plain part a message of its own. */
  function Finalized(book: map<string, seq<MimePart>>): map<string, seq<MimePart>> {
    (map k | k in book :: Settled(book[k])) + (map d | d in MovedOut(book) :: [MovedOut(book)[d]])
  }

  /** The file lists after `finalize`: unchanged, and the moved plain
      part's name for each new message. */
  function FinalizedFiles(book: map<string, seq<MimePart>>, names: map<string, seq<string>>): map<string, seq<string>> {
    names + (map d | d in MovedOut(book) :: [MovedOut(book)[d].name])
  }

  /** Which keys `finalize` leaves, and what sits under each. */
  lemma FinalizedAt(book: map<string, seq<MimePart>>, names: map<string, seq<string>>, k: string)
    ensures k in Finalized(book) <==> k in book || k in MovedOut(book)
    ensures k in FinalizedFiles(book, names) <==> k in names || k in MovedOut(book)
    ensures k in MovedOut(book) ==>
      Finalized(book)[k] == [MovedOut(book)[k]] && FinalizedFiles(book, names)[k] == [MovedOut(book)[k].name]
    ensures k in book && k !in MovedOut(book) ==> Finalized(book)[k] == Settled(book[k])
    ensures k in names && k !in MovedOut(book) ==> FinalizedFiles(book, names)[k] == names[k]
  {
  }

  lemma FinalizedKeys(book: map<string, seq<MimePart>>, names: map<string, seq<string>>)
    ensures Finalized(book).Keys == book.Keys + MovedOut(book).Keys
    ensures FinalizedFiles(book, names).Keys == names.Keys + MovedOut(book).Keys
  {
  }

  lemma {:induction false} FindKindIn(ps: seq<MimePart>, k: Kind)
    requires FindKind(ps, k).Some?
    ensures FindKind(ps, k).value in ps && FindKind(ps, k).value.kind == k
    decreases |ps|
  {
    if ps[0].kind != k {
      FindKindIn(ps[1..], k);
    }
  }

  lemma {:induction false} RemoveFirstOfBase(ps: seq<MimePart>, x: MimePart, k: string)
    requires OfBase(ps, k)
    ensures OfBase(RemoveFirst(ps, x), k) && |RemoveFirst(ps, x)| >= |ps| - 1
    decreases |ps|
  {
    if ps != [] && ps[0] != x {
      assert OfBase(ps[1..], k) by {
        forall i | 0 <= i < |ps| - 1 ensures ps[1..][i].base == k { assert ps[1..][i] == ps[i + 1]; }
      }
      RemoveFirstOfBase(ps[1..], x, k);
      var r := [ps[0]] + RemoveFirst(ps[1..], x);
      forall i | 0 < i < |r| ensures r[i] == RemoveFirst(ps[1..], x)[i - 1] { }
    }
  }

  /** Settling keeps a message under its key: it stays non-empty and of
      its base, and a moved plain part has that base. */
  lemma SettledKeyed(ps: seq<MimePart>, k: string)
    requires ps != [] && (OfBase(ps, k) || Moved(ps, k))
    ensures Settled(ps) != [] && (OfBase(Settled(ps), k) || Moved(Settled(ps), k))
    ensures Moves(ps) ==> Settle(ps).value.moved.value.kind == Plain && Settle(ps).value.moved.value.base == k
  {
    if FindKind(ps, Plain).Some? && |ps| > 1 {
      FindKindIn(ps, Plain);
      var plain := FindKind(ps, Plain).value;
      var i :| 0 <= i < |ps| && ps[i] == plain;
      assert OfBase(ps, k);
      RemoveFirstOfBase(ps, plain, k);
    }
  }

  /** A plain part alone is left alone. */
  lemma SettleSingle(q: MimePart)
    ensures Settle([q]) == Ok(Settlement([q], None))
  {
  }

  /** A moved plain part goes to the key `"#{base}:plain"` of its own
      base. */
  lemma MovedOutKey(book: map<string, seq<MimePart>>, k: string)
    requires Keyed(book) && k in book && Moves(book[k])
    ensures PlainKey(k) in MovedOut(book) && MovedOut(book)[PlainKey(k)] == Settle(book[k]).value.moved.value
    ensures MovedOut(book)[PlainKey(k)].kind == Plain && MovedOut(book)[PlainKey(k)].base == k
  {
    SettledKeyed(book[k], k);
    PlainKeyInjective();
  }

  /** `finalize` keeps every part under its own message. */
  lemma FinalizedKeyed(book: map<string, seq<MimePart>>)
    requires Keyed(book)
    ensures Keyed(Finalized(book))
  {
    var f := Finalized(book);
    forall k | k in f ensures f[k] != [] && (OfBase(f[k], k) || Moved(f[k], k)) {
      if k in MovedOut(book) {
        var o :| o in book && Moves(book[o]) && k == PlainKey(o);
        MovedOutKey(book, o);
      } else {
        SettledKeyed(book[k], k);
      }
    }
  }

  /** `finalize` leaves alone every message it does not settle. */
  lemma FinalizedUntouched(book: map<string, seq<MimePart>>, k: string)
    requires k in book && k !in MovedOut(book)
    requires |book[k]| <= 1 || forall i | 0 <= i < |book[k]| :: book[k][i].kind != Plain
    ensures k in Finalized(book) && Finalized(book)[k] == book[k]
  {
    SettleCases(book[k]);
  }

  /** When no message is settled, `finalize` changes nothing. */
  lemma NothingSettled(book: map<string, seq<MimePart>>)
    requires forall k | k in book :: Settle(book[k]) == Ok(Settlement(book[k], None))
    ensures !Funky(book) && MovedOut(book) == map[] && Finalized(book) == book
  {
    assert MovedOut(book).Keys == {};
    assert (map k | k in book :: Settled(book[k])) == book;
  }

  /** A second `finalize` changes nothing. */
  lemma FinalizedIdempotent(book: map<string, seq<MimePart>>)
    requires Keyed(book) && !Funky(book)
    requires forall k | k in book :: OnePlain(book[k])
    ensures !Funky(Finalized(book)) && MovedOut(Finalized(book)) == map[]
    ensures Finalized(Finalized(book)) == Finalized(book)
  {
    var f := Finalized(book);
    forall k | k in f ensures Settle(f[k]) == Ok(Settlement(f[k], None)) {
      if k in MovedOut(book) {
        SettleSingle(MovedOut(book)[k]);
      } else {
        SettleIdempotent(book[k]);
      }
    }
    NothingSettled(f);
  }
  // ---------------------------------------------------------------------
  // The dump

  /** What `to_mbox` gives back: the number of messages, their file
      lists, and the mbox text written. */
  datatype Dump = Dump(count: nat, files: seq<seq<string>>, text: string)

  /** `d` ahead of whatever `r` adds. */
  function Then(d: Dump, r: Result<Dump>): Result<Dump> {
    match r
    case Ok(e) => Ok(Dump(d.count + e.count, d.files + e.files, d.text + e.text))
    case Err(f) => Err(f)
  }

  /** The dump of the messages under `keys`, in that order. */
  function DumpOf(keys: seq<string>, book: map<string, seq<MimePart>>, names: map<string, seq<string>>,
                  contents: map<string, string>): Result<Dump>
    requires forall i | 0 <= i < |keys| :: keys[i] in book && keys[i] in names
    decreases |keys|
  {
    if keys == [] then Ok(Dump(0, [], ""))
    else
      match Render(book[keys[0]], contents)
      case Err(e) => Err(e)
      case Ok(t) => Then(Dump(1, [names[keys[0]]], t), DumpOf(keys[1..], book, names, contents))
  }

  /** The dump succeeds exactly when every message renders. */
  lemma {:induction false} DumpOk(keys: seq<string>, book: map<string, seq<MimePart>>,
                                  names: map<string, seq<string>>, contents: map<string, string>)
    requires forall i | 0 <= i < |keys| :: keys[i] in book && keys[i] in names
    ensures DumpOf(keys, book, names, contents).Ok? <==>
      forall i | 0 <= i < |keys| :: Render(book[keys[i]], contents).Ok?
    decreases |keys|
  {
    if keys != [] {
      var t := keys[1..];
      forall i | 0 < i < |keys| ensures keys[i] == t[i - 1] { }
      DumpOk(t, book, names, contents);
    }
  }

  /** A dump that succeeds counts every message and lists their files in
      key order. */
  lemma {:induction false} DumpShape(keys: seq<string>, book: map<string, seq<MimePart>>,
                                     names: map<string, seq<string>>, contents: map<string, string>)
    requires forall i | 0 <= i < |keys| :: keys[i] in book && keys[i] in names
    requires DumpOf(keys, book, names, contents).Ok?
    ensures var d := DumpOf(keys, book, names, contents).value;
      d.count == |keys| && |d.files| == |keys| && forall i | 0 <= i < |keys| :: d.files[i] == names[keys[i]]
    decreases |keys|
  {
    if keys != [] {
      var t := keys[1..];
      forall i | 0 < i < |keys| ensures keys[i] == t[i - 1] { }
      DumpShape(t, book, names, contents);
      var d, e := DumpOf(keys, book, names, contents).value, DumpOf(t, book, names, contents).value;
      assert d.count == 1 + e.count && d.files == [names[keys[0]]] + e.files;
    }
  }

  /** A dump that fails carries the fault of the first message that does
      not render. */
  lemma {:induction false} DumpFault(keys: seq<string>, book: map<string, seq<MimePart>>,
                                     names: map<string, seq<string>>, contents: map<string, string>)
    requires forall i | 0 <= i < |keys| :: keys[i] in book && keys[i] in names
    requires DumpOf(keys, book, names, contents).Err?
    ensures exists i | 0 <= i < |keys| ::
      Render(book[keys[i]], contents) == Err(DumpOf(keys, book, names, contents).error) &&
      forall j | 0 <= j < i :: Render(book[keys[j]], contents).Ok?
    decreases |keys|
  {
    var t := keys[1..];
    if Render(book[keys[0]], contents).Ok? {
      assert DumpOf(t, book, names, contents).Err? && DumpOf(keys, book, names, contents).error == DumpOf(t, book, names, contents).error;
      DumpFault(t, book, names, contents);
      var i :| 0 <= i < |t| && Render(book[t[i]], contents) == Err(DumpOf(t, book, names, contents).error) &&
        forall j | 0 <= j < i :: Render(book[t[j]], contents).Ok?;
      forall j | 0 < j <= i ensures keys[j] == t[j - 1] { }
      assert Render(book[keys[i + 1]], contents) == Err(DumpOf(keys, book, names, contents).error);
    }
  }

  /** The dump of one more message in front. */
  lemma DumpCons(k: string, later: seq<string>, book: map<string, seq<MimePart>>, names: map<string, seq<string>>,
                 contents: map<string, string>)
    requires k in book && k in names && forall j | 0 <= j < |later| :: later[j] in book && later[j] in names
    ensures Render(book[k], contents).Err? ==> DumpOf([k] + later, book, names, contents) == Err(Render(book[k], contents).error)
    ensures Render(book[k], contents).Ok? ==>
      (DumpOf([k] + later, book, names, contents) ==
       Then(Dump(1, [names[k]], Render(book[k], contents).value), DumpOf(later, book, names, contents)))
  {
    var here := [k] + later;
    assert here[0] == k && here[1..] == later;
  }

  /** One step of walking the keys: the `i`th message is rendered and
      either stops the dump or joins what was dumped so far. */
  lemma DumpAdvance(keys: seq<string>, i: nat, book: map<string, seq<MimePart>>, names: map<string, seq<string>>,
                    contents: map<string, string>, whole: Result<Dump>, d: Dump, t: Result<string>)
    requires i < |keys| && forall j | 0 <= j < |keys| :: keys[j] in book && keys[j] in names
    requires whole == Then(d, DumpOf(keys[i..], book, names, contents))
    requires t == Render(book[keys[i]], contents)
    ensures t.Err? ==> whole == Err(t.error)
    ensures t.Ok? ==>
      whole == Then(Dump(d.count + 1, d.files + [names[keys[i]]], d.text + t.value), DumpOf(keys[i + 1..], book, names, contents))
  {
    var later := keys[i + 1..];
    assert keys[i..] == [keys[i]] + later;
    DumpCons(keys[i], later, book, names, contents);
    if t.Ok? {
      ThenTwice(d, Dump(1, [names[keys[i]]], t.value), DumpOf(later, book, names, contents));
    }
  }

  /** A dump that walked every key of the registry once counts them all. */
  lemma DumpCount(keys: seq<string>, book: map<string, seq<MimePart>>, names: map<string, seq<string>>,
                  contents: map<string, string>, d: Dump)
    requires Distinct(keys) && (forall k :: k in keys <==> k in book)
    requires forall j | 0 <= j < |keys| :: keys[j] in names
    requires DumpOf(keys, book, names, contents) == Ok(d)
    ensures d.count == |book|
  {
    DumpShape(keys, book, names, contents);
    DistinctCard(keys);
    assert (set k | k in keys) == book.Keys;
  }

  lemma ThenNothing(r: Result<Dump>)
    ensures Then(Dump(0, [], ""), r) == r
  {
    if r.Ok? {
      assert [] + r.value.files == r.value.files && "" + r.value.text == r.value.text;
    }
  }

  lemma ThenEnd(d: Dump)
    ensures Then(d, Ok(Dump(0, [], ""))) == Ok(d)
  {
    assert d.files + [] == d.files && d.text + "" == d.text;
  }

  lemma ThenTwice(a: Dump, b: Dump, r: Result<Dump>)
    ensures Then(a, Then(b, r)) == Then(Dump(a.count + b.count, a.files + b.files, a.text + b.text), r)
  {
    if r.Ok? {
      assert a.files + (b.files + r.value.files) == (a.files + b.files) + r.value.files;
      assert a.text + (b.text + r.value.text) == (a.text + b.text) + r.value.text;
    }
  }

  // ---------------------------------------------------------------------
  // Key order

  lemma StrLessOrders(s: set<string>)
    ensures Total(s, StrLess) && Transitive(s, StrLess)
  {
    forall a, b | a in s && b in s && a != b ensures StrLess(a, b) || StrLess(b, a) {
      StrLessTotal(a, b);
    }
    forall a, b, c | a in s && b in s && c in s && StrLess(a, b) && StrLess(b, c) ensures StrLess(a, c) {
      StrLessTransitive(a, b, c);
    }
  }

  lemma OrderedDistinct(ks: seq<string>)
    requires Ordered(ks, StrLess)
    ensures Distinct(ks)
  {
    forall i, j | 0 <= i < j < |ks| ensures ks[i] != ks[j] {
      StrLessIrreflexive(ks[i]);
    }
  }

  lemma DistinctCard(ks: seq<string>)
    requires Distinct(ks)
    ensures |set k | k in ks| == |ks|
  {
    if ks != [] {
      var t := ks[1..];
      assert Distinct(t) by {
        forall i, j | 0 <= i < j < |t| ensures t[i] != t[j] { assert t[i] == ks[i + 1] && t[j] == ks[j + 1]; }
      }
      DistinctCard(t);
      assert ks[0] !in t by {
        forall i | 0 <= i < |t| ensures t[i] != ks[0] { assert t[i] == ks[i + 1]; }
      }
      assert (set k | k in ks) == (set k | k in t) + {ks[0]} by {
        assert ks == [ks[0]] + t;
      }
    }
  }

  /** `keys.sort`: every key once, in ascending string order. */
  method SortKeys(keys: set<string>) returns (ks: seq<string>)
    ensures Ordered(ks, StrLess) && Distinct(ks)
    ensures forall k :: k in ks <==> k in keys
  {
    ks := [];
    var rest := keys;
    while rest != {}
      invariant rest <= keys
      invariant forall k :: k in ks <==> k in keys && k !in rest
      invariant Ordered(ks, StrLess)
      decreases rest
    {
      var k :| k in rest;
      StrLessOrders(set y | y in ks + [k]);
      InsertOrdered(k, ks, StrLess);
      InsertPermutes(k, ks, StrLess);
      var next := Insert(k, ks, StrLess);
      forall y ensures y in next <==> y in ks || y == k {
        assert y in next <==> y in multiset(next);
        assert y in ks <==> y in multiset(ks);
      }
      ks := next;
      rest := rest - {k};
    }
    OrderedDistinct(ks);
  }

  // ---------------------------------------------------------------------
  // The registry as an object

  /** No two keys share a message object. */
  predicate Unshared(ms: map<string, Message>) {
    forall k1, k2 | k1 in ms && k2 in ms && k1 != k2 :: ms[k1] != ms[k2]
  }

  /** Filing under `d` a message no other key holds keeps the keys
      unshared. */
  lemma UnsharedUpdate(ms: map<string, Message>, d: string, m: Message)
    requires Unshared(ms) && forall k | k in ms && k != d :: ms[k] != m
    ensures Unshared(ms[d := m])
  {
  }

  class MessageList {
    var messages: map<string, Message>
    /** The parts of every message, by key. */
    ghost var book: map<string, seq<MimePart>>
    /** The file list of every message, by key. */
    ghost var names: map<string, seq<string>>

    /** Each key has a message object of its own, whose parts and files
        are the ones recorded under that key, and every part sits under
        its own message. */
    ghost predicate Valid()
      reads this, messages.Values
    {
      && book.Keys == messages.Keys && names.Keys == messages.Keys
      && (forall k | k in messages :: messages[k].parts == book[k] && messages[k].files == names[k])
      && Unshared(messages)
      && Keyed(book)
    }

    constructor ()
      ensures Valid() && messages == map[] && book == map[] && names == map[]
    {
      messages, book, names := map[], map[], map[];
    }

    /** `add(s)`: the part made from file `s` joins the message under its
        base, which is created on first sight. */
    method Add(s: string, contents: map<string, string>) returns (r: Outcome)
      requires Valid()
      modifies this, messages.Values
      ensures Valid()
      ensures r == Pass <==> MakePart(s, contents).Ok?
      ensures r.Fail? ==> r.error == MakePart(s, contents).error && book == old(book) && names == old(names)
      ensures r == Pass ==> var p := MakePart(s, contents).value;
        book == Appended(old(book), p.base, p) && names == Appended(old(names), p.base, p.name)
    {
      var made := NewPart(s, contents);
      if made.Err? {
        return Fail(made.error);
      }
      MadeBaseDigits(s, contents);
      File(made.value);
      return Pass;
    }

    /** The message under `p.base` takes `p` as its next part; a message
        is created for a base seen for the first time. */
    method File(p: MimePart)
      requires Valid() && IsDigits(p.base)
      modifies this, messages.Values
      ensures Valid()
      ensures book == Appended(old(book), p.base, p) && names == Appended(old(names), p.base, p.name)
    {
      if p.base in messages {
        Grow(p);
      } else {
        Open(p);
      }
    }

    /** The message already filed under `p.base` takes `p`. */
    method Grow(p: MimePart)
      requires Valid() && IsDigits(p.base) && p.base in messages
      modifies this, messages[p.base]
      ensures Valid()
      ensures book == Appended(old(book), p.base, p) && names == Appended(old(names), p.base, p.name)
    {
      ghost var b, n := Appended(book, p.base, p), Appended(names, p.base, p.name);
      FiledKeyed(book, p);
      var m := messages[p.base];
      m.Append(p);
      book, names := b, n;
    }

    /** A new message for `p` under a base not seen before. */
    method Open(p: MimePart)
      requires Valid() && IsDigits(p.base) && p.base !in messages
      modifies this
      ensures Valid()
      ensures book == Appended(old(book), p.base, p) && names == Appended(old(names), p.base, p.name)
    {
      ghost var b, n := Appended(book, p.base, p), Appended(names, p.base, p.name);
      FiledKeyed(book, p);
      var m := new Message(p);
      UnsharedUpdate(messages, p.base, m);
      messages := messages[p.base := m];
      book, names := b, n;
    }

    /** `to_mbox(io)`: every message rendered in ascending key order;
        gives back how many there were and their file lists. */
    method ToMbox(contents: map<string, string>) returns (r: Result<Dump>, ghost keys: seq<string>)
      requires Valid()
      ensures Ordered(keys, StrLess) && Distinct(keys) && forall k :: k in keys <==> k in book
      ensures forall i | 0 <= i < |keys| :: keys[i] in book && keys[i] in names
      ensures r == DumpOf(keys, book, names, contents)
      ensures r.Ok? ==> r.value.count == |book|
    {
      var ks := SortKeys(messages.Keys);
      keys := ks;
      r := DumpKeys(ks, contents);
      if r.Ok? {
        DumpCount(ks, book, names, contents, r.value);
      }
    }

    /** The messages under `ks` rendered one after the other, stopping at
        the first that fails. */
    method DumpKeys(ks: seq<string>, contents: map<string, string>) returns (r: Result<Dump>)
      requires forall k | k in messages :: k in book && k in names && messages[k].parts == book[k] && messages[k].files == names[k]
      requires forall i | 0 <= i < |ks| :: ks[i] in messages
      ensures r == DumpOf(ks, book, names, contents)
    {
      var count, files, out := 0, [], "";
      var i := 0;
      assert ks[0..] == ks;
      ThenNothing(DumpOf(ks, book, names, contents));
      while i < |ks|
        invariant 0 <= i <= |ks|
        invariant DumpOf(ks, book, names, contents) == Then(Dump(count, files, out), DumpOf(ks[i..], book, names, contents))
        decreases |ks| - i
      {
        var m := messages[ks[i]];
        ghost var rendered := Render(book[ks[i]], contents);
        DumpAdvance(ks, i, book, names, contents, DumpOf(ks, book, names, contents), Dump(count, files, out), rendered);
        var t := m.ToMbox(contents);
        if t.Err? {
          return Err(t.error);
        }
        count, files, out := count + 1, files + [m.files], out + t.value;
        i := i + 1;
      }
      assert ks[i..] == [];
      ThenEnd(Dump(count, files, out));
      return Ok(Dump(count, files, out));
    }

    /** `finalize`: every message settled; the plain parts given up become
        messages of their own under `"#{base}:plain"`. A message that
        cannot be settled is fatal, and then nothing has changed. */
    method Finalize() returns (r: Outcome)
      requires Valid()
      modifies this, messages.Values
      ensures Valid()
      ensures r == Pass <==> !Funky(old(book))
      ensures r.Fail? ==> book == old(book) && names == old(names) && exists k | k in book :: Settle(book[k]) == Err(r.error)
      ensures r == Pass ==> book == Finalized(old(book)) && names == FinalizedFiles(old(book), old(names))
    {
      var survey := Survey();
      if survey.Err? {
        return Fail(survey.error);
      }
      var toadd := survey.value;
      SettleAll();
      Prepared(toadd);
      Spawn(toadd, Finalized(book), FinalizedFiles(book, names));
      r := Pass;
    }

    /** The reading half of `finalize`'s `each`: settling is tried on every
        message, the first rejection found is reported, and otherwise the
        plain parts that settling gives up are gathered under the keys
        they move to. Nothing is changed. */
    method Survey() returns (r: Result<map<string, MimePart>>)
      requires book.Keys == messages.Keys && Keyed(book)
      requires forall k | k in messages :: messages[k].parts == book[k]
      ensures r.Ok? <==> !Funky(book)
      ensures r.Err? ==> exists k | k in book :: Settle(book[k]) == Err(r.error)
      ensures r.Ok? ==> r.value == MovedOut(book)
    {
      var todo := messages.Keys;
      ghost var order: seq<string> := [];
      var toadd := map[];
      while todo != {}
        invariant todo <= book.Keys
        invariant forall i | 0 <= i < |order| :: order[i] in book && order[i] !in todo
        invariant forall k | k in book && k !in todo :: k in order && Settle(book[k]).Ok?
        invariant toadd == GatherAll(book, order)
        decreases todo
      {
        var k :| k in todo;
        var s := Settle(messages[k].parts);
        if s.Err? {
          return Err(s.error);
        }
        GatherAllSnoc(book, order, k);
        toadd := Gather(toadd, s.value.moved);
        order := order + [k];
        todo := todo - {k};
      }
      GatherAllMoved(book, order);
      assert (set k | k in order) == book.Keys;
      return Ok(toadd);
    }

    /** The changing half of `finalize`'s `each`: each message keeps what
        settling leaves of it. */
    method SettleAll()
      requires Unshared(messages) && messages.Keys <= book.Keys && messages.Keys <= names.Keys
      requires forall k | k in messages :: messages[k].parts == book[k] && messages[k].files == names[k]
      requires forall k | k in messages :: Settle(book[k]).Ok?
      modifies messages.Values
      ensures forall k | k in messages :: messages[k].parts == Settled(book[k]) && messages[k].files == names[k]
    {
      var todo := messages.Keys;
      while todo != {}
        invariant todo <= messages.Keys
        invariant forall k | k in messages ::
          messages[k].parts == (if k in todo then book[k] else Settled(book[k])) && messages[k].files == names[k]
        decreases todo
      {
        var k :| k in todo;
        SettleAt(k, book[k]);
        todo := todo - {k};
      }
    }

    /** The block of `finalize`'s `each` on the message under `k`: its
        parts are cut down to what settling leaves. */
    method SettleAt(k: string, ghost ps: seq<MimePart>)
      requires k in messages && messages[k].parts == ps && Settle(ps).Ok?
      modifies messages[k]
      ensures messages[k].parts == Settled(ps) && messages[k].files == old(messages[k].files)
    {
      var m := messages[k];
      var s := Settle(m.parts);
      m.parts := s.value.parts;
    }

    /** The closing step of `finalize`: a new message for each gathered
        plain part, under its key, replacing whatever sat there; nothing
        else changes. */
    method OpenAll(toadd: map<string, MimePart>)
      requires Unshared(messages)
      modifies this
      ensures book == old(book) && names == old(names)
      ensures messages.Keys == old(messages).Keys + toadd.Keys
      ensures forall d | d in messages && d !in toadd :: messages[d] == old(messages)[d]
      ensures forall d | d in toadd ::
        messages[d].parts == [toadd[d]] && messages[d].files == [toadd[d].name]
      ensures Unshared(messages)
    {
      var pending := toadd.Keys;
      while pending != {}
        invariant pending <= toadd.Keys
        invariant book == old(book) && names == old(names)
        invariant messages.Keys == old(messages).Keys + (toadd.Keys - pending)
        invariant forall d | d in messages && (d !in toadd || d in pending) :: messages[d] == old(messages)[d]
        invariant forall d | d in toadd && d !in pending ::
          messages[d].parts == [toadd[d]] && messages[d].files == [toadd[d].name]
        invariant Unshared(messages)
        decreases pending
      {
        var d :| d in pending;
        var m := new Message(toadd[d]);
        UnsharedUpdate(messages, d, m);
        messages := messages[d := m];
        pending := pending - {d};
      }
    }

    /** The settled messages and the gathered plain parts, read against
        the finalized registry: every settled message already holds its
        finalized parts, and each gathered part is what its key will hold. */
    lemma Prepared(toadd: map<string, MimePart>)
      requires book.Keys == messages.Keys && names.Keys == messages.Keys && Keyed(book)
      requires forall k | k in messages :: messages[k].parts == Settled(book[k]) && messages[k].files == names[k]
      requires toadd == MovedOut(book)
      ensures Keyed(Finalized(book))
      ensures Finalized(book).Keys == messages.Keys + toadd.Keys
      ensures FinalizedFiles(book, names).Keys == messages.Keys + toadd.Keys
      ensures forall k | k in messages && k !in toadd ::
        messages[k].parts == Finalized(book)[k] && messages[k].files == FinalizedFiles(book, names)[k]
      ensures forall d | d in toadd :: Finalized(book)[d] == [toadd[d]] && FinalizedFiles(book, names)[d] == [toadd[d].name]
    {
      FinalizedKeyed(book);
      FinalizedKeys(book, names);
      forall k | k in messages.Keys + toadd.Keys
        ensures k in messages && k !in toadd ==>
          messages[k].parts == Finalized(book)[k] && messages[k].files == FinalizedFiles(book, names)[k]
        ensures k in toadd ==> Finalized(book)[k] == [toadd[k]] && FinalizedFiles(book, names)[k] == [toadd[k].name]
      {
        FinalizedAt(book, names, k);
      }
    }

    /** The last line of `finalize`: each gathered plain part becomes a
        message of its own, replacing whatever sat under its key, which
        gives the registry `b` with file lists `n`. */
    method Spawn(toadd: map<string, MimePart>, ghost b: map<string, seq<MimePart>>, ghost n: map<string, seq<string>>)
      requires Unshared(messages)
      requires Keyed(b) && b.Keys == messages.Keys + toadd.Keys && n.Keys == messages.Keys + toadd.Keys
      requires forall k | k in messages && k !in toadd :: messages[k].parts == b[k] && messages[k].files == n[k]
      requires forall d | d in toadd :: b[d] == [toadd[d]] && n[d] == [toadd[d].name]
      modifies this
      ensures Valid() && book == b && names == n
    {
      OpenAll(toadd);
      book, names := b, n;
    }
  }
}
