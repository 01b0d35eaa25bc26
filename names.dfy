/** The part-file name classifier (`MimePart#initialize`, the pattern
    dispatch): a dump file's name encodes which message it belongs to
    (`base`), where in that message's MIME tree it sits (`path`) and what
    it holds (`kind`). */
module Names {
  import opened Wrappers
  import opened Strings

  /** `:plain` a whole message, `:part` a body, `:mime` a part's MIME
      header block, `:header` a message header, `:text` a message body. */
  datatype Kind = Plain | Part | Mime | Header | Text

  datatype Name = Name(base: string, path: string, kind: Kind)

  /** The number of digits `s` starts with. */
  function DigitRun(s: string): (n: nat)
    ensures n <= |s|
    ensures forall i | 0 <= i < n :: IsDigit(s[i])
    ensures n == |s| || !IsDigit(s[n])
    decreases |s|
  {
    if s != [] && IsDigit(s[0]) then 1 + DigitRun(s[1..]) else 0
  }

  /** The maximal run of digits at the start of `s`. */
  function LeadingDigits(s: string): string {
    s[..DigitRun(s)]
  }

  /** `^([0-9]+)\.$` */
  predicate PlainName(s: string) {
    |s| >= 2 && s[|s| - 1] == '.' && IsDigits(s[..|s| - 1])
  }

  predicate DigitOrDot(c: char) { IsDigit(c) || c == '.' }

  /** `^([0-9]+)(\.[0-9]+)*$`: digit runs joined by single dots. */
  predicate DottedNumber(s: string) {
    && s != []
    && IsDigit(s[0])
    && IsDigit(s[|s| - 1])
    && (forall i | 0 <= i < |s| :: DigitOrDot(s[i]))
    && (forall i | 0 <= i < |s| - 1 :: s[i] == '.' ==> s[i + 1] != '.')
  }

  /** `([0-9]+)(\.[0-9.]*)?`: a digit, then digits and dots in any order. */
  predicate PathPrefix(s: string) {
    s != [] && IsDigit(s[0]) && forall i | 0 <= i < |s| :: DigitOrDot(s[i])
  }

  /** The suffix alternatives `\.(MIME|HEADER|TEXT)$`, with their length. */
  function Suffix(s: string): (r: Option<(Kind, nat)>)
    ensures r.Some? ==> r.value.1 <= |s|
  {
    if EndsWith(s, ".MIME") then Some((Mime, 5))
    else if EndsWith(s, ".HEADER") then Some((Header, 7))
    else if EndsWith(s, ".TEXT") then Some((Text, 5))
    else None
  }

  /** The file name that a descriptor stands for. */
  function Spell(n: Name): string {
    match n.kind
    case Plain => n.path + "."
    case Part => n.path
    case Mime => n.path + ".MIME"
    case Header => n.path + ".HEADER"
    case Text => n.path + ".TEXT"
  }

  /** The descriptors the grammar can produce: the base is the leading digit
      run of the path, and the path has the shape its kind's pattern allows. */
  predicate WellFormed(n: Name) {
    && n.base == LeadingDigits(n.path)
    && match n.kind
       case Plain => n.path != [] && IsDigits(n.path)
       case Part => DottedNumber(n.path)
       case _ => PathPrefix(n.path)
  }

  /** The three patterns, tried in order; any other name is fatal. */
  function Classify(s: string): (r: Result<Name>)
    ensures r.Ok? ==> WellFormed(r.value) && Spell(r.value) == s
    ensures r.Err? ==> r.error == BadName(s)
  {
    if PlainName(s) then
      var digits := s[..|s| - 1];
      Ok(Name(digits, digits, Plain))
    else if DottedNumber(s) then
      Ok(Name(LeadingDigits(s), s, Part))
    else
      match Suffix(s)
      case Some((kind, n)) =>
        var path := s[..|s| - n];
        if PathPrefix(path) then Ok(Name(LeadingDigits(path), path, kind)) else Err(BadName(s))
      case None => Err(BadName(s))
  }

  /** Every well-formed descriptor is what its own file name classifies to,
      so with `Classify`'s contract: a name is rejected exactly when no
      well-formed descriptor spells it. */
  lemma ClassifySpell(n: Name)
    requires WellFormed(n)
    ensures Classify(Spell(n)) == Ok(n)
  {
    var s := Spell(n);
    match n.kind
    case Plain =>
      assert s[..|s| - 1] == n.path;
      assert LeadingDigits(n.path) == n.path;
    case Part =>
      assert !PlainName(s);
    case Mime =>
      assert s[|s| - 1] == 'E' && s[..|s| - 5] == n.path;
    case Header =>
      assert s[|s| - 1] == 'R' && s[..|s| - 7] == n.path;
      assert s[|s| - 5..] != ".MIME" by { assert s[|s| - 5..][1] == 'A'; }
    case Text =>
      assert s[|s| - 1] == 'T' && s[..|s| - 5] == n.path;
      assert s[|s| - 5..] != ".MIME" by { assert s[|s| - 5..][1] == 'T'; }
      assert !EndsWith(s, ".HEADER") by {
        if |s| >= 7 { assert s[|s| - 7..][6] == 'T'; }
      }
  }

  lemma ClassifyRejects(s: string)
    ensures Classify(s).Err? <==> forall n: Name :: WellFormed(n) ==> Spell(n) != s
  {
    if Classify(s).Err? {
      forall n: Name | WellFormed(n) ensures Spell(n) != s {
        ClassifySpell(n);
      }
    }
  }

  /** A name of digits alone is its own leading digit run. */
  lemma LeadingDigitsAll(s: string)
    requires IsDigits(s)
    ensures LeadingDigits(s) == s
  {
    assert s[..|s|] == s;
  }

  /** The leading digit run of `"1.2.3"` is `"1"`. */
  lemma LeadingDigitsUpTo(s: string, k: nat)
    requires k < |s| && IsDigits(s[..k]) && !IsDigit(s[k])
    ensures LeadingDigits(s) == s[..k]
  {
  }

  /** The names the classifier is exercised with. */
  lemma ClassifyPlainExample()
    ensures Classify("1.") == Ok(Name("1", "1", Plain))
  {
    var one := "1";
    assert IsDigits(one) by { assert IsDigit(one[0]); }
    LeadingDigitsAll(one);
    assert Spell(Name(one, one, Plain)) == "1.";
    ClassifySpell(Name(one, one, Plain));
  }

  lemma ClassifyHeaderExample()
    ensures Classify("562929.HEADER") == Ok(Name("562929", "562929", Header))
  {
    var b := "562929";
    assert IsDigits(b) by { assert forall i | 0 <= i < |b| :: IsDigit(b[i]); }
    LeadingDigitsAll(b);
    assert Spell(Name(b, b, Header)) == "562929.HEADER";
    ClassifySpell(Name(b, b, Header));
  }

  lemma ClassifyMimeExample()
    ensures Classify("1.2.3.MIME") == Ok(Name("1", "1.2.3", Mime))
  {
    var deep := "1.2.3";
    LeadingDigitsUpTo(deep, 1);
    assert PathPrefix(deep) by { assert forall i | 0 <= i < |deep| :: DigitOrDot(deep[i]); }
    assert Spell(Name("1", deep, Mime)) == "1.2.3.MIME";
    ClassifySpell(Name("1", deep, Mime));
  }

  lemma ClassifyTextExample()
    ensures Classify("1.2.3.TEXT") == Ok(Name("1", "1.2.3", Text))
  {
    var deep := "1.2.3";
    LeadingDigitsUpTo(deep, 1);
    assert PathPrefix(deep) by { assert forall i | 0 <= i < |deep| :: DigitOrDot(deep[i]); }
    assert Spell(Name("1", deep, Text)) == "1.2.3.TEXT";
    ClassifySpell(Name("1", deep, Text));
  }

  lemma ClassifyPartExample()
    ensures Classify("411.2.3") == Ok(Name("411", "411.2.3", Part))
  {
    var part := "411.2.3";
    assert IsDigits(part[..3]) by { assert forall i | 0 <= i < 3 :: IsDigit(part[..3][i]); }
    LeadingDigitsUpTo(part, 3);
    assert DottedNumber(part) by {
      assert forall i | 0 <= i < |part| :: DigitOrDot(part[i]);
    }
    ClassifySpell(Name("411", "411.2.3", Part));
  }
}
