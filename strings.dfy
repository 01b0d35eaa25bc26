/** The parts of Ruby's String API the reassembler relies on, for the
    ASCII range it inspects: `strip`, `downcase`, `split(":")`, `join`,
    `<=>`, `start_with?`, `gsub` with a literal pattern and `IO#puts`. */
module Strings {

  predicate IsDigit(c: char) { '0' <= c <= '9' }

  predicate IsDigits(s: string) { forall i | 0 <= i < |s| :: IsDigit(s[i]) }

  /** Ruby's whitespace for `strip`: NUL, tab, line feed, vertical tab,
      form feed, carriage return and space. */
  predicate IsSpace(c: char) { c == '\0' || c == ' ' || '\t' <= c <= '\r' }

  predicate StartsWith(s: string, prefix: string) {
    |prefix| <= |s| && s[..|prefix|] == prefix
  }

  predicate EndsWith(s: string, suffix: string) {
    |suffix| <= |s| && s[|s| - |suffix|..] == suffix
  }

  /** `lstrip`: leading whitespace removed. */
  function TrimLeft(s: string): string
    decreases |s|
  {
    if s != [] && IsSpace(s[0]) then TrimLeft(s[1..]) else s
  }

  /** `rstrip`: trailing whitespace removed. */
  function TrimRight(s: string): string
    decreases |s|
  {
    if s != [] && IsSpace(s[|s| - 1]) then TrimRight(s[..|s| - 1]) else s
  }

  /** `strip`: whitespace removed from both ends. */
  function Strip(s: string): string {
    TrimRight(TrimLeft(s))
  }

  /** `TrimLeft` drops a run of whitespace from the front and stops at the
      first other character. */
  lemma {:induction false} TrimLeftMeaning(s: string)
    ensures |TrimLeft(s)| <= |s| && TrimLeft(s) == s[|s| - |TrimLeft(s)|..]
    ensures forall i | 0 <= i < |s| - |TrimLeft(s)| :: IsSpace(s[i])
    ensures TrimLeft(s) == [] || !IsSpace(TrimLeft(s)[0])
    decreases |s|
  {
    if s != [] && IsSpace(s[0]) {
      TrimLeftMeaning(s[1..]);
    }
  }

  /** `TrimRight` drops a run of whitespace from the back and stops at the
      last other character. */
  lemma {:induction false} TrimRightMeaning(s: string)
    ensures |TrimRight(s)| <= |s| && TrimRight(s) == s[..|TrimRight(s)|]
    ensures forall i | |TrimRight(s)| <= i < |s| :: IsSpace(s[i])
    ensures TrimRight(s) == [] || !IsSpace(TrimRight(s)[|TrimRight(s)| - 1])
    decreases |s|
  {
    if s != [] && IsSpace(s[|s| - 1]) {
      TrimRightMeaning(s[..|s| - 1]);
    }
  }

  /** `strip` keeps a contiguous piece of `s`, drops only whitespace around
      it, and leaves no whitespace at either end. */
  lemma StripMeaning(s: string)
    ensures exists i, j | 0 <= i <= j <= |s| :: (Strip(s) == s[i..j] &&
      (forall k | 0 <= k < i :: IsSpace(s[k])) && (forall k | j <= k < |s| :: IsSpace(s[k])))
    ensures Strip(s) == [] || (!IsSpace(Strip(s)[0]) && !IsSpace(Strip(s)[|Strip(s)| - 1]))
  {
    var t := TrimLeft(s);
    TrimLeftMeaning(s);
    TrimRightMeaning(t);
    var i := |s| - |t|;
    var j := i + |Strip(s)|;
    assert Strip(s) == s[i..j];
    assert forall k | j <= k < |s| :: s[k] == t[k - i];
  }

  /** Stripping twice is stripping once. */
  lemma StripIdempotent(s: string)
    ensures Strip(Strip(s)) == Strip(s)
  {
    StripMeaning(s);
    var r := Strip(s);
    if r != [] {
      assert TrimLeft(r) == r;
      assert TrimRight(r) == r;
    }
  }

  function LowerChar(c: char): char {
    if 'A' <= c <= 'Z' then (c as int + 32) as char else c
  }

  /** `downcase`, restricted to ASCII letters. */
  function Lower(s: string): (r: string)
    ensures |r| == |s|
  {
    seq(|s|, i requires 0 <= i < |s| => LowerChar(s[i]))
  }

  /** Every field of `s` between occurrences of `sep`, empty ones included:
      `Fields("a::b:", ':') == ["a", "", "b", ""]`. */
  function Fields(s: string, sep: char): (r: seq<string>)
    ensures |r| >= 1
    ensures forall i | 0 <= i < |r| :: sep !in r[i]
    decreases |s|
  {
    if s == [] then [""]
    else if s[0] == sep then [""] + Fields(s[1..], sep)
    else
      var f := Fields(s[1..], sep);
      [[s[0]] + f[0]] + f[1..]
  }

  /** `fields.join(sep)`. */
  function Join(fs: seq<string>, sep: char): string
    decreases |fs|
  {
    if fs == [] then ""
    else if |fs| == 1 then fs[0]
    else fs[0] + [sep] + Join(fs[1..], sep)
  }

  /** The number of empty fields at the end of `fs`. */
  function EmptyTail(fs: seq<string>): (n: nat)
    ensures n <= |fs|
    ensures forall i | |fs| - n <= i < |fs| :: fs[i] == ""
    ensures n == |fs| || fs[|fs| - n - 1] != ""
    decreases |fs|
  {
    if fs != [] && fs[|fs| - 1] == "" then 1 + EmptyTail(fs[..|fs| - 1]) else 0
  }

  /** Ruby drops the empty fields at the end of a `split` result. */
  function DropTrailingEmpty(fs: seq<string>): seq<string> {
    fs[..|fs| - EmptyTail(fs)]
  }

  /** `s.split(sep)` for a one-character separator other than a space. */
  function Split(s: string, sep: char): seq<string> {
    DropTrailingEmpty(Fields(s, sep))
  }

  /** The index of the first `sep` in `s`, or `|s|` when there is none. */
  function IndexOf(s: string, sep: char): (k: nat)
    ensures k <= |s|
    ensures forall i | 0 <= i < k :: s[i] != sep
    ensures k == |s| || s[k] == sep
    decreases |s|
  {
    if s == [] || s[0] == sep then 0 else 1 + IndexOf(s[1..], sep)
  }

  /** The text of `s` before its first `sep` (all of `s` when there is none). */
  function Before(s: string, sep: char): string {
    s[..IndexOf(s, sep)]
  }

  /** The text of `s` after its first `sep` (empty when there is none). */
  function After(s: string, sep: char): string {
    if IndexOf(s, sep) == |s| then "" else s[IndexOf(s, sep) + 1..]
  }

  /** The number of `c` at the end of `s`. */
  function TailRun(s: string, c: char): (n: nat)
    ensures n <= |s|
    ensures forall i | |s| - n <= i < |s| :: s[i] == c
    ensures n == |s| || s[|s| - n - 1] != c
    decreases |s|
  {
    if s != [] && s[|s| - 1] == c then 1 + TailRun(s[..|s| - 1], c) else 0
  }

  /** `s` without the run of `c` at its end. */
  function TrimEnd(s: string, c: char): string {
    s[..|s| - TailRun(s, c)]
  }

  /** Splitting and joining back on the same separator gives the text back. */
  lemma {:induction false} JoinFields(s: string, sep: char)
    ensures Join(Fields(s, sep), sep) == s
    decreases |s|
  {
    if s == [] {
    } else if s[0] == sep {
      JoinFields(s[1..], sep);
      assert Fields(s, sep) == [""] + Fields(s[1..], sep);
    } else {
      JoinFields(s[1..], sep);
      var f := Fields(s[1..], sep);
      if |f| == 1 {
        assert Join(f, sep) == f[0];
      } else {
        assert Join(f, sep) == f[0] + [sep] + Join(f[1..], sep);
        assert Fields(s, sep)[1..] == f[1..];
      }
    }
  }

  /** Splitting at a separator splits the fields there. */
  lemma {:induction false} FieldsAppend(a: string, b: string, sep: char)
    ensures Fields(a + [sep] + b, sep) == Fields(a, sep) + Fields(b, sep)
    decreases |a|
  {
    if a == [] {
      assert a + [sep] + b == [sep] + b;
      assert ([sep] + b)[1..] == b;
    } else {
      var s := a + [sep] + b;
      assert s[0] == a[0] && s[1..] == a[1..] + [sep] + b;
      FieldsAppend(a[1..], b, sep);
    }
  }

  /** Joining two non-empty lists of fields puts one separator between them. */
  lemma {:induction false} JoinAppend(xs: seq<string>, ys: seq<string>, sep: char)
    requires xs != [] && ys != []
    ensures Join(xs + ys, sep) == Join(xs, sep) + [sep] + Join(ys, sep)
    decreases |xs|
  {
    var zs := xs + ys;
    assert zs[0] == xs[0];
    if |xs| == 1 {
      assert zs[1..] == ys;
    } else {
      assert zs[1..] == xs[1..] + ys;
      JoinAppend(xs[1..], ys, sep);
    }
  }

  /** `t` is `s` or continues it after a separator exactly when the fields
      of `s` are the leading fields of `t`. */
  lemma FieldsPrefix(s: string, t: string, sep: char)
    ensures (t == s || StartsWith(t, s + [sep])) <==> Fields(s, sep) <= Fields(t, sep)
  {
    var fs, ft := Fields(s, sep), Fields(t, sep);
    if StartsWith(t, s + [sep]) {
      var rest := t[|s| + 1..];
      assert t == s + [sep] + rest;
      FieldsAppend(s, rest, sep);
    }
    if fs <= ft {
      var more := ft[|fs|..];
      assert ft == fs + more;
      JoinFields(s, sep);
      JoinFields(t, sep);
      if more == [] {
        assert ft == fs;
      } else {
        JoinAppend(fs, more, sep);
        assert t == s + [sep] + Join(more, sep);
        assert t[..|s + [sep]|] == s + [sep];
      }
    }
  }

  /** The first field is the text before the first separator. */
  lemma {:induction false} FirstField(s: string, sep: char)
    ensures Fields(s, sep)[0] == Before(s, sep)
    decreases |s|
  {
    if s != [] && s[0] != sep {
      FirstField(s[1..], sep);
    }
  }

  /** The remaining fields joined back give the text after the first separator. */
  lemma {:induction false} OtherFields(s: string, sep: char)
    ensures Join(Fields(s, sep)[1..], sep) == After(s, sep)
    decreases |s|
  {
    if s == [] {
    } else if s[0] == sep {
      JoinFields(s[1..], sep);
      assert Fields(s, sep)[1..] == Fields(s[1..], sep);
    } else {
      OtherFields(s[1..], sep);
      assert Fields(s, sep)[1..] == Fields(s[1..], sep)[1..];
    }
  }

  lemma DropSnocEmpty(fs: seq<string>)
    ensures DropTrailingEmpty(fs + [""]) == DropTrailingEmpty(fs)
  {
    var gs := fs + [""];
    assert gs[..|gs| - 1] == fs;
    assert EmptyTail(gs) == 1 + EmptyTail(fs);
  }

  lemma TrimEndSnoc(s: string, c: char)
    ensures TrimEnd(s + [c], c) == TrimEnd(s, c)
  {
    var t := s + [c];
    assert t[..|t| - 1] == s;
    assert TailRun(t, c) == 1 + TailRun(s, c);
  }

  /** Dropping the empty trailing fields before joining removes the trailing
      separators after joining, provided no field holds a separator. */
  lemma {:induction false} JoinDropped(fs: seq<string>, sep: char)
    requires forall i | 0 <= i < |fs| :: sep !in fs[i]
    ensures Join(DropTrailingEmpty(fs), sep) == TrimEnd(Join(fs, sep), sep)
    decreases |fs|
  {
    if fs == [] {
    } else if fs[|fs| - 1] == "" {
      var init := fs[..|fs| - 1];
      assert fs == init + [""];
      JoinDropped(init, sep);
      DropSnocEmpty(init);
      JoinSnoc(init, "", sep);
      if init == [] {
        assert fs == [""];
      } else {
        assert Join(fs, sep) == Join(init, sep) + [sep];
        TrimEndSnoc(Join(init, sep), sep);
      }
    } else {
      assert DropTrailingEmpty(fs) == fs by { assert fs[..|fs| - 0] == fs; }
      JoinEndsWith(fs, sep);
    }
  }

  /** `Join` of a non-empty list ends with its last field. */
  lemma {:induction false} JoinSnoc(fs: seq<string>, last: string, sep: char)
    ensures fs == [] ==> Join(fs + [last], sep) == last
    ensures fs != [] ==> Join(fs + [last], sep) == Join(fs, sep) + [sep] + last
    decreases |fs|
  {
    if |fs| >= 1 {
      assert (fs + [last])[1..] == fs[1..] + [last];
      JoinSnoc(fs[1..], last, sep);
    }
  }

  /** A join whose last field is non-empty and separator-free ends in a
      character other than the separator. */
  lemma {:induction false} JoinEndsWith(fs: seq<string>, sep: char)
    requires fs != [] && fs[|fs| - 1] != "" && sep !in fs[|fs| - 1]
    ensures TrimEnd(Join(fs, sep), sep) == Join(fs, sep)
  {
    var init, last := fs[..|fs| - 1], fs[|fs| - 1];
    assert fs == init + [last];
    JoinSnoc(init, last, sep);
    var j := Join(fs, sep);
    assert j[|j| - 1] == last[|last| - 1];
  }

  /** Ruby's `split` gives an empty list exactly when every character is
      the separator. */
  lemma {:induction false} SplitEmpty(s: string, sep: char)
    ensures Split(s, sep) == [] <==> forall i | 0 <= i < |s| :: s[i] == sep
  {
    var fs := Fields(s, sep);
    JoinFields(s, sep);
    JoinDropped(fs, sep);
    var t := TrimEnd(s, sep);
    if Split(s, sep) == [] {
      assert t == "";
    } else {
      var r := Split(s, sep);
      assert r[|r| - 1] != "" && sep !in r[|r| - 1];
      JoinEndsWith(r, sep);
      assert t != [] && t[|t| - 1] != sep;
    }
  }

  /** Ruby's `String#<=>` on text: lexicographic by character, a proper
      prefix sorting first. */
  predicate StrLess(a: string, b: string)
    decreases |a|
  {
    if a == [] then b != []
    else if b == [] then false
    else if a[0] != b[0] then a[0] < b[0]
    else StrLess(a[1..], b[1..])
  }

  lemma {:induction false} StrLessIrreflexive(a: string)
    ensures !StrLess(a, a)
    decreases |a|
  {
    if a != [] { StrLessIrreflexive(a[1..]); }
  }

  lemma {:induction false} StrLessAsymmetric(a: string, b: string)
    ensures !(StrLess(a, b) && StrLess(b, a))
    decreases |a|
  {
    if a != [] && b != [] && a[0] == b[0] { StrLessAsymmetric(a[1..], b[1..]); }
  }

  lemma {:induction false} StrLessTotal(a: string, b: string)
    requires a != b
    ensures StrLess(a, b) || StrLess(b, a)
    decreases |a|
  {
    if a != [] && b != [] && a[0] == b[0] {
      assert a[1..] != b[1..] by { assert a == [a[0]] + a[1..] && b == [b[0]] + b[1..]; }
      StrLessTotal(a[1..], b[1..]);
    }
  }

  lemma {:induction false} StrLessTransitive(a: string, b: string, c: string)
    requires StrLess(a, b) && StrLess(b, c)
    ensures StrLess(a, c)
    decreases |a|
  {
    if a != [] && a[0] == b[0] && b[0] == c[0] {
      StrLessTransitive(a[1..], b[1..], c[1..]);
    }
  }

  /** A string is less than another when, after a common prefix, it ends
      first or has the smaller character. */
  lemma {:induction false} StrLessAt(a: string, b: string, k: nat)
    requires k <= |a| && k <= |b| && a[..k] == b[..k]
    requires (k == |a| < |b|) || (k < |a| && k < |b| && a[k] < b[k])
    ensures StrLess(a, b)
    decreases k
  {
    if k > 0 {
      assert a[0] == a[..k][0] == b[..k][0] == b[0];
      assert a[1..][..k - 1] == a[1..k] == a[..k][1..];
      assert b[1..][..k - 1] == b[1..k] == b[..k][1..];
      StrLessAt(a[1..], b[1..], k - 1);
    }
  }

  /** `s.gsub(pat, "")` for a literal, non-empty pattern: every occurrence,
      found left to right without overlap, is removed. */
  function RemoveAll(s: string, pat: string): string
    requires pat != []
    decreases |s|
  {
    if |s| < |pat| then s
    else if s[..|pat|] == pat then RemoveAll(s[|pat|..], pat)
    else [s[0]] + RemoveAll(s[1..], pat)
  }

  /** Removing a pattern whose last character occurs nowhere else, from
      a text without that character followed by the pattern, leaves the
      text. */
  lemma {:induction false} RemoveAllSuffix(s: string, pat: string)
    requires pat != [] && pat[|pat| - 1] !in s && pat[|pat| - 1] !in pat[..|pat| - 1]
    ensures RemoveAll(s + pat, pat) == s
    decreases |s|
  {
    var t := s + pat;
    if s == [] {
      assert t[..|pat|] == pat && t[|pat|..] == [];
    } else {
      var last := |pat| - 1;
      assert t[..|pat|] != pat by {
        if last < |s| {
          assert t[..|pat|][last] == s[last];
        } else {
          assert t[..|pat|][last] == pat[last - |s|];
          assert pat[last - |s|] == pat[..last][last - |s|];
        }
      }
      assert t[1..] == s[1..] + pat;
      RemoveAllSuffix(s[1..], pat);
      assert [s[0]] + s[1..] == s;
    }
  }

  /** `io.puts(s)`: the text followed by a line feed unless it already ends with one. */
  function Puts(s: string): (r: string)
    ensures StartsWith(r, s) && EndsWith(r, "\n")
    ensures |r| <= |s| + 1
  {
    if s != [] && s[|s| - 1] == '\n' then s else s + "\n"
  }
}
