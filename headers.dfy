/** The header reader (`HeaderReader`): reads the header block at the top of
    a part file, joins folded lines into logical lines, splits each into a
    lower-cased key and a value, and picks out the sender, the message id
    and the multipart boundary.

    The pure functions below specify what the reader yields; the class
    `HeaderReader` is the stateful reader with its one-line push-back
    buffer, proved against them. */
module HeaderScan {
  import opened Wrappers
  import opened Strings

  // ---------------------------------------------------------------------
  // Physical lines

  /** Length of the first line of `text`, its line feed included. */
  function LineLength(text: string): (n: nat)
    requires text != []
    ensures 0 < n <= |text|
    ensures forall i | 0 <= i < n - 1 :: text[i] != '\n'
    ensures n == |text| || text[n - 1] == '\n'
    decreases |text|
  {
    if text[0] == '\n' || |text| == 1 then 1 else 1 + LineLength(text[1..])
  }

  /** The lines successive `IO#gets` calls return for `text`. */
  function SplitLines(text: string): (r: seq<string>)
    ensures forall i | 0 <= i < |r| :: r[i] != ""
    decreases |text|
  {
    if text == [] then [] else
      var n := LineLength(text);
      [text[..n]] + SplitLines(text[n..])
  }

  function Concat(ls: seq<string>): string
    decreases |ls|
  {
    if ls == [] then "" else ls[0] + Concat(ls[1..])
  }

  /** Reading a text line by line loses nothing. */
  lemma {:induction false} SplitLinesConcat(text: string)
    ensures Concat(SplitLines(text)) == text
    decreases |text|
  {
    if text != [] {
      var n := LineLength(text);
      SplitLinesConcat(text[n..]);
      assert SplitLines(text) == [text[..n]] + SplitLines(text[n..]);
      assert text == text[..n] + text[n..];
    }
  }

  /** Only the last line read off a text can lack its line feed. */
  lemma {:induction false} SplitLinesEnds(text: string)
    ensures forall i | 0 <= i < |SplitLines(text)| - 1 :: EndsWith(SplitLines(text)[i], "\n")
    decreases |text|
  {
    if text != [] {
      var n := LineLength(text);
      var r, t := SplitLines(text), SplitLines(text[n..]);
      SplitLinesEnds(text[n..]);
      assert r == [text[..n]] + t;
      forall i | 0 <= i < |r| - 1 ensures EndsWith(r[i], "\n") {
        if i == 0 {
          assert t != [];
          assert text[..n][n - 1] == '\n';
          assert text[..n][n - 1..] == "\n";
        } else {
          assert r[i] == t[i - 1];
        }
      }
    }
  }

  /** The lines before the first line that is exactly a line feed: the
      reader never looks past that line. */
  function Block(ls: seq<string>): seq<string>
    decreases |ls|
  {
    if ls == [] || ls[0] == "\n" then [] else [ls[0]] + Block(ls[1..])
  }

  // ---------------------------------------------------------------------
  // Folding

  /** A folded continuation line starts with a space or a tab. */
  predicate IsContinuation(l: string) {
    l != [] && (l[0] == ' ' || l[0] == '\t')
  }

  /** The continuation lines at the start of `ls`. */
  function Conts(ls: seq<string>): seq<string>
    decreases |ls|
  {
    if ls != [] && IsContinuation(ls[0]) then [ls[0]] + Conts(ls[1..]) else []
  }

  /** What follows the continuation lines at the start of `ls`. */
  function AfterConts(ls: seq<string>): (r: seq<string>)
    ensures |r| <= |ls|
    decreases |ls|
  {
    if ls != [] && IsContinuation(ls[0]) then AfterConts(ls[1..]) else ls
  }

  /** The continuation run and what follows it make up the whole list; the
      run holds only continuation lines, and what follows does not start
      with one. */
  lemma {:induction false} ContsSplit(ls: seq<string>)
    ensures ls == Conts(ls) + AfterConts(ls)
    ensures forall i | 0 <= i < |Conts(ls)| :: IsContinuation(Conts(ls)[i])
    ensures AfterConts(ls) == [] || !IsContinuation(AfterConts(ls)[0])
    decreases |ls|
  {
    if ls != [] && IsContinuation(ls[0]) {
      ContsSplit(ls[1..]);
      assert ls == [ls[0]] + ls[1..];
    }
  }

  /** Reading one more line off `rest` either extends the continuation run
      already read, `cs`, or ends it. */
  lemma ContsStep(ps: seq<string>, cs: seq<string>, rest: seq<string>)
    requires Conts(ps) == cs + Conts(rest) && AfterConts(ps) == AfterConts(rest)
    ensures rest != [] && IsContinuation(rest[0]) ==>
      Conts(ps) == (cs + [rest[0]]) + Conts(rest[1..]) && AfterConts(ps) == AfterConts(rest[1..])
    ensures !(rest != [] && IsContinuation(rest[0])) ==> Conts(ps) == cs && AfterConts(ps) == rest
  {
    assert cs + [] == cs;
  }

  /** `acc` extended by `" " + strip(c)` for each continuation line `c`. */
  function Fold(acc: string, conts: seq<string>): string
    decreases |conts|
  {
    if conts == [] then acc
    else Fold(acc, conts[..|conts| - 1]) + " " + Strip(conts[|conts| - 1])
  }

  /** Folding one more continuation line appends it to the fold. */
  lemma FoldSnoc(acc: string, cs: seq<string>, c: string)
    ensures Fold(acc, cs + [c]) == Fold(acc, cs) + " " + Strip(c)
  {
    assert (cs + [c])[..|cs|] == cs;
  }

  /** The first logical line of `ps`: its first line and the continuation
      lines right after it, joined. */
  function Logical(ps: seq<string>): string
    requires ps != []
  {
    Fold(Strip(ps[0]), Conts(ps[1..]))
  }

  /** All logical lines of `ps`. */
  function Unfold(ps: seq<string>): seq<string>
    decreases |ps|
  {
    if ps == [] then [] else [Logical(ps)] + Unfold(AfterConts(ps[1..]))
  }

  /** The number of lines in `ls` that are not continuation lines. */
  function Heads(ls: seq<string>): nat
    decreases |ls|
  {
    if ls == [] then 0 else (if IsContinuation(ls[0]) then 0 else 1) + Heads(ls[1..])
  }

  lemma {:induction false} HeadsAppend(a: seq<string>, b: seq<string>)
    ensures Heads(a + b) == Heads(a) + Heads(b)
    decreases |a|
  {
    if a != [] {
      assert (a + b)[0] == a[0] && (a + b)[1..] == a[1..] + b;
      HeadsAppend(a[1..], b);
    } else {
      assert a + b == b;
    }
  }

  lemma {:induction false} HeadsOfContinuations(ls: seq<string>)
    requires forall i | 0 <= i < |ls| :: IsContinuation(ls[i])
    ensures Heads(ls) == 0
    decreases |ls|
  {
    if ls != [] { HeadsOfContinuations(ls[1..]); }
  }

  /** Every line that does not start with a space or a tab starts a new
      logical line, and no other line after the first does. */
  lemma {:induction false} UnfoldCount(ps: seq<string>)
    ensures ps == [] ==> Unfold(ps) == []
    ensures ps != [] ==> |Unfold(ps)| == 1 + Heads(ps[1..])
    decreases |ps|
  {
    if ps != [] {
      var cs, rest := Conts(ps[1..]), AfterConts(ps[1..]);
      ContsSplit(ps[1..]);
      HeadsAppend(cs, rest);
      HeadsOfContinuations(cs);
      UnfoldCount(rest);
      if rest != [] {
        assert Heads(rest) == 1 + Heads(rest[1..]);
      }
    }
  }

  // ---------------------------------------------------------------------
  // Fields

  datatype Field = Field(key: string, value: string)

  /** `a = line.split(":")`, then key `a.shift.downcase` and value
      `a.join(":").strip`; `None` where `a.shift` is nil and Ruby fails. */
  function ParseField(line: string): Option<Field> {
    var a := Split(line, ':');
    if a == [] then None else Some(Field(Lower(a[0]), Strip(Join(a[1..], ':'))))
  }

  /** What `ParseField` computes, stated without `split`: the key is the text
      before the first colon, lower-cased; the value is the text after it
      with trailing colons dropped, then stripped; and only a line made of
      colons alone (the empty line included) has no key. */
  lemma ParseFieldMeaning(line: string)
    ensures ParseField(line).None? <==> forall i | 0 <= i < |line| :: line[i] == ':'
    ensures ParseField(line).Some? ==>
      ParseField(line).value.key == Lower(Before(line, ':')) &&
      ParseField(line).value.value == Strip(TrimEnd(After(line, ':'), ':'))
  {
    SplitEmpty(line, ':');
    var fs := Fields(line, ':');
    var a := Split(line, ':');
    if a != [] {
      FirstField(line, ':');
      OtherFields(line, ':');
      JoinDropped(fs[1..], ':');
      assert a[1..] == DropTrailingEmpty(fs[1..]) by { DropTail(fs); }
    }
  }

  /** Dropping empty trailing fields commutes with dropping the first field,
      as long as something is left. */
  lemma {:induction false} DropTail(fs: seq<string>)
    requires DropTrailingEmpty(fs) != []
    ensures DropTrailingEmpty(fs)[1..] == DropTrailingEmpty(fs[1..])
    decreases |fs|
  {
    var last := |fs| - 1;
    if fs[last] == "" {
      var init := fs[..last];
      DropTail(init);
      assert init[1..] == fs[1..][..|fs[1..]| - 1];
    }
  }

  /** `r` with `xs` put in front of its fields, or the same error. */
  function Prefixed(xs: seq<Field>, r: Result<seq<Field>>): Result<seq<Field>> {
    match r
    case Ok(fs) => Ok(xs + fs)
    case Err(e) => Err(e)
  }

  /** The fields of a list of logical lines, or the first line without a key. */
  function ParseAll(ls: seq<string>): Result<seq<Field>>
    decreases |ls|
  {
    if ls == [] then Ok([])
    else match ParseField(ls[0])
      case None => Err(NoKey(ls[0]))
      case Some(f) => Prefixed([f], ParseAll(ls[1..]))
  }

  /** One step of `ParseAll`. */
  lemma ParseAllCons(x: string, rest: seq<string>)
    ensures ParseAll([x] + rest) ==
      match ParseField(x)
      case None => Err(NoKey(x))
      case Some(f) => Prefixed([f], ParseAll(rest))
  {
    assert ([x] + rest)[0] == x && ([x] + rest)[1..] == rest;
  }

  lemma PrefixedNil(r: Result<seq<Field>>)
    ensures Prefixed([], r) == r
  {
    if r.Ok? {
      assert [] + r.value == r.value;
    }
  }

  lemma PrefixedTwice(xs: seq<Field>, ys: seq<Field>, r: Result<seq<Field>>)
    ensures Prefixed(xs, Prefixed(ys, r)) == Prefixed(xs + ys, r)
  {
    if r.Ok? {
      assert xs + (ys + r.value) == xs + ys + r.value;
    }
  }

  /** Parsing succeeds exactly when every line has a key, and then gives
      one field per line, in order. */
  lemma {:induction false} ParseAllMeaning(ls: seq<string>)
    ensures ParseAll(ls).Ok? <==> forall i | 0 <= i < |ls| :: ParseField(ls[i]).Some?
    ensures ParseAll(ls).Ok? ==> (|ParseAll(ls).value| == |ls| &&
      (forall i | 0 <= i < |ls| :: ParseField(ls[i]) == Some(ParseAll(ls).value[i])))
    decreases |ls|
  {
    if ls != [] {
      ParseAllMeaning(ls[1..]);
      if ParseField(ls[0]).Some? && ParseAll(ls[1..]).Ok? {
        forall i | 0 <= i < |ls| ensures ParseField(ls[i]) == Some(ParseAll(ls).value[i]) {
          if i > 0 { assert ls[i] == ls[1..][i - 1]; }
        }
      }
      if ParseAll(ls[1..]).Err? {
        var i :| 0 <= i < |ls[1..]| && ParseField(ls[1..][i]).None?;
        assert ParseField(ls[i + 1]).None?;
      }
    }
  }

  // ---------------------------------------------------------------------
  // Boundary parameter

  /** The two patterns for the boundary parameter: `; boundary="X"` and
      `; boundary=X`, both matched ignoring case. */
  datatype Form = Quoted | Bare

  function Tag(form: Form): string {
    match form
    case Quoted => "; boundary=\""
    case Bare => "; boundary="
  }

  /** `v[i..]` starts with `tag`, ignoring ASCII case (`tag` itself is
      lower case). */
  predicate LowerPrefixAt(v: string, i: nat, tag: string)
    decreases |tag|
  {
    tag == [] || (i < |v| && LowerChar(v[i]) == tag[0] && LowerPrefixAt(v, i + 1, tag[1..]))
  }

  /** `v[i..]` starts with the form's tag, ignoring ASCII case. */
  predicate TagAt(v: string, i: nat, form: Form) {
    i + |Tag(form)| <= |v| && LowerPrefixAt(v, i, Tag(form))
  }

  /** `LowerPrefixAt` is `downcase` of the slice compared with the tag. */
  lemma {:induction false} LowerPrefixAtMeaning(v: string, i: nat, tag: string)
    requires i <= |v|
    ensures LowerPrefixAt(v, i, tag) <==> i + |tag| <= |v| && Lower(v[i..i + |tag|]) == tag
    decreases |tag|
  {
    if tag != [] && i < |v| {
      LowerPrefixAtMeaning(v, i + 1, tag[1..]);
      if i + |tag| <= |v| {
        var w := Lower(v[i..i + |tag|]);
        assert w == [LowerChar(v[i])] + Lower(v[i + 1..i + |tag|]);
      }
    }
  }

  /** `"([^"]*)"` after its opening quote: the text of `v` from `from` up to
      the next quote, if there is one. */
  function QuotedValue(v: string, from: nat): Option<string>
    decreases |v| - from
  {
    if from >= |v| then None
    else if v[from] == '"' then Some([])
    else match QuotedValue(v, from + 1)
      case Some(t) => Some([v[from]] + t)
      case None => None
  }

  /** `[^ "]*` at `from`: the longest run of characters other than space
      and quote. */
  function BareRun(v: string, from: nat): string
    decreases |v| - from
  {
    if from >= |v| || v[from] == ' ' || v[from] == '"' then [] else [v[from]] + BareRun(v, from + 1)
  }

  /** The match of a pattern that starts at `v[i]`, if any: the tag, then
      for the quoted form the text up to the next quote, for the bare form
      a non-empty run of characters other than space and quote. */
  function MatchAt(v: string, i: nat, form: Form): Option<string> {
    if !TagAt(v, i, form) then None
    else match form
      case Quoted => QuotedValue(v, i + |Tag(form)|)
      case Bare => if BareRun(v, i + |Tag(form)|) == [] then None else Some(BareRun(v, i + |Tag(form)|))
  }

  /** The leftmost match at or after `i`, as Ruby's `=~` finds it. */
  function Search(v: string, i: nat, form: Form): Option<string>
    decreases |v| + 1 - i
  {
    if i > |v| then None
    else if MatchAt(v, i, form).Some? then MatchAt(v, i, form)
    else Search(v, i + 1, form)
  }

  /** `Search` finds a match exactly when there is one at or after `i`, and
      then it is the leftmost one. */
  lemma {:induction false} SearchLeftmost(v: string, i: nat, form: Form)
    ensures Search(v, i, form).None? <==> forall k | i <= k <= |v| :: MatchAt(v, k, form).None?
    ensures Search(v, i, form).Some? ==> exists k | i <= k <= |v| :: (MatchAt(v, k, form) == Search(v, i, form) &&
      forall k' | i <= k' < k :: MatchAt(v, k', form).None?)
    decreases |v| + 1 - i
  {
    if i <= |v| && MatchAt(v, i, form).None? {
      SearchLeftmost(v, i + 1, form);
      if Search(v, i, form).Some? {
        var k :| i + 1 <= k <= |v| && MatchAt(v, k, form) == Search(v, i, form) &&
          forall k' | i + 1 <= k' < k :: MatchAt(v, k', form).None?;
        assert forall k' | i <= k' < k :: MatchAt(v, k', form).None?;
      }
    }
  }

  /** The boundary a `Content-Type` value names: the quoted form first,
      then the bare form. */
  function BoundaryOf(value: string): Option<string> {
    match Search(value, 0, Quoted)
    case Some(b) => Some(b)
    case None => Search(value, 0, Bare)
  }

  // ---------------------------------------------------------------------
  // Scanning

  /** `from`, `message_id` and `boundary` as `scan!` leaves them. */
  datatype Info = Info(from: Option<string>, messageId: Option<string>, boundary: Option<string>)

  /** One iteration of the `scan!` loop. */
  function Absorb(info: Info, f: Field): Info {
    if f.key == "content-type" then
      match BoundaryOf(f.value)
      case Some(b) => info.(boundary := Some(b))
      case None => info
    else if f.key == "from" then info.(from := Some(f.value))
    else if f.key == "message-id" then info.(messageId := Some(f.value))
    else info
  }

  /** The effect of `scan!` over the fields `fs`, one `Absorb` per field,
      in order. */
  function Scan(fs: seq<Field>, info: Info): Info
    decreases |fs|
  {
    if fs == [] then info else Scan(fs[1..], Absorb(info, fs[0]))
  }

  /** A `Content-Type` field whose value names a boundary. */
  predicate SetsBoundary(f: Field) {
    f.key == "content-type" && BoundaryOf(f.value).Some?
  }

  /** What one field does to each of the three findings. */
  lemma AbsorbFacts(info: Info, f: Field)
    ensures Absorb(info, f).from == if f.key == "from" then Some(f.value) else info.from
    ensures Absorb(info, f).messageId == if f.key == "message-id" then Some(f.value) else info.messageId
    ensures Absorb(info, f).boundary == if SetsBoundary(f) then BoundaryOf(f.value) else info.boundary
  {
  }

  /** Scanning two lists of fields is scanning the first, then the second
      from where the first left off. */
  lemma {:induction false} ScanAppend(a: seq<Field>, b: seq<Field>, info: Info)
    ensures Scan(a + b, info) == Scan(b, Scan(a, info))
    decreases |a|
  {
    if a == [] {
      assert a + b == b;
    } else {
      assert (a + b)[0] == a[0] && (a + b)[1..] == a[1..] + b;
      ScanAppend(a[1..], b, Absorb(info, a[0]));
    }
  }

  /** A finding no field touches keeps its value. */
  lemma {:induction false} ScanUntouched(fs: seq<Field>, info: Info)
    ensures (forall i | 0 <= i < |fs| :: fs[i].key != "from") ==> Scan(fs, info).from == info.from
    ensures (forall i | 0 <= i < |fs| :: fs[i].key != "message-id") ==>
      Scan(fs, info).messageId == info.messageId
    ensures (forall i | 0 <= i < |fs| :: !SetsBoundary(fs[i])) ==> Scan(fs, info).boundary == info.boundary
    decreases |fs|
  {
    if fs != [] {
      AbsorbFacts(info, fs[0]);
      ScanUntouched(fs[1..], Absorb(info, fs[0]));
      assert forall j | 0 <= j < |fs| - 1 :: fs[1..][j] == fs[j + 1];
    }
  }

  /** The last field `fs[i]` holding a finding decides it: the last
      `From` gives the sender. */
  lemma ScanLastFrom(fs: seq<Field>, i: nat, info: Info)
    requires i < |fs| && fs[i].key == "from"
    requires forall j | i < j < |fs| :: fs[j].key != "from"
    ensures Scan(fs, info).from == Some(fs[i].value)
  {
    var upto, after := fs[..i], fs[i + 1..];
    assert fs == upto + [fs[i]] + after;
    ScanAppend(upto + [fs[i]], after, info);
    ScanAppend(upto, [fs[i]], info);
    var mid := Scan(upto + [fs[i]], info);
    AbsorbFacts(Scan(upto, info), fs[i]);
    assert forall j | 0 <= j < |after| :: after[j] == fs[i + 1 + j];
    ScanUntouched(after, mid);
  }

  /** The last `Message-ID` gives the message id. */
  lemma ScanLastMessageId(fs: seq<Field>, i: nat, info: Info)
    requires i < |fs| && fs[i].key == "message-id"
    requires forall j | i < j < |fs| :: fs[j].key != "message-id"
    ensures Scan(fs, info).messageId == Some(fs[i].value)
  {
    var upto, after := fs[..i], fs[i + 1..];
    assert fs == upto + [fs[i]] + after;
    ScanAppend(upto + [fs[i]], after, info);
    ScanAppend(upto, [fs[i]], info);
    var mid := Scan(upto + [fs[i]], info);
    AbsorbFacts(Scan(upto, info), fs[i]);
    assert forall j | 0 <= j < |after| :: after[j] == fs[i + 1 + j];
    ScanUntouched(after, mid);
  }

  /** The last `Content-Type` that names a boundary gives the boundary; one
      that names none does not count. */
  lemma ScanLastBoundary(fs: seq<Field>, i: nat, info: Info)
    requires i < |fs| && SetsBoundary(fs[i])
    requires forall j | i < j < |fs| :: !SetsBoundary(fs[j])
    ensures Scan(fs, info).boundary == BoundaryOf(fs[i].value)
  {
    var upto, after := fs[..i], fs[i + 1..];
    assert fs == upto + [fs[i]] + after;
    ScanAppend(upto + [fs[i]], after, info);
    ScanAppend(upto, [fs[i]], info);
    var mid := Scan(upto + [fs[i]], info);
    AbsorbFacts(Scan(upto, info), fs[i]);
    assert forall j | 0 <= j < |after| :: after[j] == fs[i + 1 + j];
    ScanUntouched(after, mid);
  }

  const NoInfo := Info(None, None, None)

  /** What `scan!` leaves for logical lines `ls`, or the line it fails on. */
  function ScanLines(ls: seq<string>, info: Info): Result<Info> {
    match ParseAll(ls)
    case Ok(fs) => Ok(Scan(fs, info))
    case Err(e) => Err(e)
  }

  /** One step of `ScanLines`: the first line is parsed and absorbed, then
      the rest is scanned. */
  lemma ScanLinesCons(x: string, rest: seq<string>, info: Info)
    ensures ScanLines([x] + rest, info) ==
      match ParseField(x)
      case None => Err(NoKey(x))
      case Some(f) => ScanLines(rest, Absorb(info, f))
  {
    ParseAllCons(x, rest);
    if ParseField(x).Some? && ParseAll(rest).Ok? {
      var f, fs := ParseField(x).value, ParseAll(rest).value;
      assert ([f] + fs)[0] == f && ([f] + fs)[1..] == fs;
    }
  }

  /** What `HeaderReader.new(io).scan!` finds in the text of a part file. */
  function ScanText(text: string): Result<Info> {
    ScanLines(Unfold(Block(SplitLines(text))), NoInfo)
  }

  // ---------------------------------------------------------------------
  // The reader

  class HeaderReader {
    /** The lines `@io.gets` has yet to return, in order. */
    var input: seq<string>
    /** `@buf`, the pushed-back line. */
    var buf: Option<string>
    /** `@io.nil?`: set for good once a line that is exactly `"\n"` is read. */
    var closed: bool
    var from: Option<string>
    var messageId: Option<string>
    var boundary: Option<string>

    /** The lines that successive `next_line` calls return before the
        first `nil`. */
    ghost function Pending(): seq<string>
      reads this
    {
      (if buf.Some? then [buf.value] else []) + (if closed then [] else Block(input))
    }

    function Found(): Info
      reads this
    {
      Info(from, messageId, boundary)
    }

    constructor (text: string)
      ensures input == SplitLines(text) && buf.None? && !closed
      ensures Pending() == Block(SplitLines(text))
      ensures Found() == NoInfo
    {
      input := SplitLines(text);
      buf := None;
      closed := false;
      from, messageId, boundary := None, None, None;
    }

    /** `next_line`: the pushed-back line if there is one, otherwise the
        next line of the input unless it is exactly `"\n"`. */
    method NextLine() returns (l: Option<string>)
      modifies this`input, this`buf, this`closed
      ensures buf.None?
      ensures old(Pending()) == [] ==> l.None? && Pending() == []
      ensures old(Pending()) != [] ==>
        l == Some(old(Pending())[0]) && Pending() == old(Pending())[1..]
    {
      if buf.Some? {
        l := buf;
        buf := None;
      } else if !closed && input != [] {
        var b := input[0];
        input := input[1..];
        if b == "\n" {
          closed := true;
          l := None;
        } else {
          l := Some(b);
        }
      } else {
        l := None;
      }
    }

    /** `unget_line`: pushing back a second line raises in the source, so
        no caller may do it. */
    method UngetLine(l: string)
      requires buf.None?
      modifies this`buf
      ensures Pending() == [l] + old(Pending())
    {
      buf := Some(l);
    }

    /** `gets`: the next logical line, split into key and value; `Ok(None)`
        at the end of the header block. */
    method Gets() returns (r: Result<Option<Field>>)
      modifies this`input, this`buf, this`closed
      ensures old(Pending()) == [] ==> r == Ok(None) && Pending() == []
      ensures old(Pending()) != [] ==>
        Pending() == AfterConts(old(Pending())[1..]) &&
        r == (match ParseField(Logical(old(Pending())))
              case Some(f) => Ok(Some(f))
              case None => Err(NoKey(Logical(old(Pending())))))
    {
      ghost var ps := Pending();
      var first := NextLine();
      if first.None? {
        return Ok(None);
      }
      var line := Continue(Strip(first.value));
      match ParseField(line) {
        case None => return Err(NoKey(line));
        case Some(f) => return Ok(Some(f));
      }
    }

    /** The loop of `gets`: appends `" " + strip(l)` to `line` for each
        continuation line `l` that follows, and pushes back the first line
        that is not one. */
    method Continue(line0: string) returns (line: string)
      requires buf.None?
      modifies this`input, this`buf, this`closed
      ensures line == Fold(line0, Conts(old(Pending())))
      ensures Pending() == AfterConts(old(Pending()))
    {
      ghost var ps := Pending();
      line := line0;
      ghost var cs: seq<string> := [];
      while true
        invariant buf.None?
        invariant Conts(ps) == cs + Conts(Pending())
        invariant AfterConts(ps) == AfterConts(Pending())
        invariant line == Fold(line0, cs)
        decreases |Pending()|
      {
        ghost var before := Pending();
        ContsStep(ps, cs, before);
        var l := NextLine();
        if l.None? {
          break;
        }
        if IsContinuation(l.value) {
          FoldSnoc(line0, cs, l.value);
          line := line + " " + Strip(l.value);
          cs := cs + [l.value];
        } else {
          UngetLine(l.value);
          break;
        }
      }
    }

    /** `lines`: every remaining logical line, parsed. */
    method Lines() returns (r: Result<seq<Field>>)
      modifies this`input, this`buf, this`closed
      ensures r == ParseAll(Unfold(old(Pending())))
      ensures r.Ok? ==> Pending() == []
    {
      ghost var ps := Pending();
      var result: seq<Field> := [];
      PrefixedNil(ParseAll(Unfold(ps)));
      while true
        invariant ParseAll(Unfold(ps)) == Prefixed(result, ParseAll(Unfold(Pending())))
        decreases |Pending()|
      {
        ghost var before := Pending();
        var l := Gets();
        if l == Ok(None) {
          assert result + [] == result;
          return Ok(result);
        }
        assert Unfold(before) == [Logical(before)] + Unfold(Pending());
        ParseAllCons(Logical(before), Unfold(Pending()));
        if l.Err? {
          return Err(l.error);
        }
        PrefixedTwice(result, [l.value.value], ParseAll(Unfold(Pending())));
        result := result + [l.value.value];
      }
    }

    /** `scan!`: runs through the header block and records the last
        sender, message id and boundary found; fails on a line without a
        key. */
    method ScanHeaders() returns (r: Outcome)
      modifies this
      ensures ScanLines(Unfold(old(Pending())), old(Found())).Ok? ==>
        r == Pass && Found() == ScanLines(Unfold(old(Pending())), old(Found())).value
      ensures ScanLines(Unfold(old(Pending())), old(Found())).Err? ==>
        r == Fail(ScanLines(Unfold(old(Pending())), old(Found())).error)
    {
      ghost var goal := ScanLines(Unfold(Pending()), Found());
      while true
        invariant goal == ScanLines(Unfold(Pending()), Found())
        decreases |Pending()|
      {
        ghost var before := Pending();
        ghost var found := Found();
        var l := Gets();
        if l == Ok(None) {
          return Pass;
        }
        assert Unfold(before) == [Logical(before)] + Unfold(Pending());
        ScanLinesCons(Logical(before), Unfold(Pending()), found);
        if l.Err? {
          return Fail(l.error);
        }
        Note(l.value.value);
      }
    }

    /** The body of the `scan!` loop for one field. */
    method Note(f: Field)
      modifies this`from, this`messageId, this`boundary
      ensures Found() == Absorb(old(Found()), f)
    {
      if f.key == "content-type" {
        var q := Search(f.value, 0, Quoted);
        if q.Some? {
          boundary := q;
        } else {
          var b := Search(f.value, 0, Bare);
          if b.Some? {
            boundary := b;
          }
        }
      } else if f.key == "from" {
        from := Some(f.value);
      } else if f.key == "message-id" {
        messageId := Some(f.value);
      }
    }
  }
}
