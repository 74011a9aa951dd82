/** Plural-rule discovery in `I18n.get`: the rule of the last `Plural-Forms:` line of
    the catalog's metadata entry, put into `plural_idx_template`. */
module PluralDiscovery {
  import opened Types
  import opened Text
  import opened Templates

  const PluralFormsPrefix: string := "Plural-Forms:"
  const ClausePrefix: string := "plural="
  /** The metadata entry of a typical English catalog, lines ending in a newline. */
  const ContentTypeLine: string := "Content-Type: text/plain; charset=UTF-8"
  const EnglishPluralFormsLine: string := "Plural-Forms: nplurals=" + "2" + "; plural=" + "(n != 1)" + ";"
  const TypicalEnglishHeader: string := ContentTypeLine + "\n" + EnglishPluralFormsLine + "\n"

  predicate IsPluralFormsLine(line: string) {
    StartsWith(line, PluralFormsPrefix)
  }

  /** `l.split(':', 1)[1].strip()` for a `Plural-Forms:` line: the text after its
      colon, without the surrounding whitespace. */
  function HeaderValue(line: string): (r: string)
    requires IsPluralFormsLine(line)
    ensures r == Strip(line[|PluralFormsPrefix|..])
  {
    assert line[..13] == PluralFormsPrefix;
    assert line[12] == ':';
    assert ':' !in line[..12] by {
      assert line[..12] == PluralFormsPrefix[..12];
    }
    AfterFirstAt(line, ':', 12);
    Strip(AfterFirst(line, ':'))
  }

  /** The value the loop over the header lines leaves in `plural`: that of the last
      `Plural-Forms:` line, if there is one. */
  function LastPluralForms(lines: seq<string>): Option<string> {
    if |lines| == 0 then None
    else if IsPluralFormsLine(lines[|lines| - 1]) then Some(HeaderValue(lines[|lines| - 1]))
    else LastPluralForms(lines[..|lines| - 1])
  }

  /** The filter of the list comprehension: a segment that starts with `plural=` once stripped. */
  predicate IsClause(segment: string) {
    StartsWith(Strip(segment), ClausePrefix)
  }

  /** The first clause of the list comprehension over `forms.split(';')`: the first
      segment that starts with `plural=` once stripped, stripped. */
  function FirstPluralClause(segments: seq<string>): (r: Option<string>)
    ensures r.Some? ==> StartsWith(r.value, ClausePrefix)
  {
    if |segments| == 0 then None
    else if IsClause(segments[0]) then Some(Strip(segments[0]))
    else FirstPluralClause(segments[1..])
  }

  /** `clause.split('=', 1)[1]` for a clause that starts with `plural=`: the text after
      its first `=`. */
  function RuleOfClause(clause: string): (r: string)
    requires StartsWith(clause, ClausePrefix)
    ensures r == clause[|ClausePrefix|..]
  {
    assert clause[..7] == ClausePrefix;
    assert clause[6] == '=';
    assert '=' !in clause[..6] by {
      assert clause[..6] == ClausePrefix[..6];
    }
    AfterFirstAt(clause, '=', 6);
    AfterFirst(clause, '=')
  }

  /** The rule in the `;`-segments of a Plural-Forms value, or the IndexError that
      `[...][0]` raises when no segment starts with `plural=`. */
  function ClauseRule(segments: seq<string>): Result<string> {
    var first := FirstPluralClause(segments);
    if first.None? then Err(IndexError) else Ok(RuleOfClause(first.value))
  }

  /** `[el.strip() for el in forms.split(';') if el.strip().startswith('plural=')][0].split('=', 1)[1]` */
  function PluralRule(forms: string): (r: Result<string>)
    ensures r.Err? ==> r.error == IndexError
  {
    ClauseRule(Split(forms, ';'))
  }

  /** What `plural` holds once the header loop is done: nothing without a metadata entry. */
  function PluralForms(t: Catalog): Option<string> {
    if Metadata in t then LastPluralForms(Split(t[Metadata], '\n')) else None
  }

  /** The `plural_template` the view emits for catalog `t`. */
  function PluralTemplate(t: Catalog): Result<string> {
    match PluralForms(t)
    case None => Ok(PluralSimpleTemplate)
    case Some(f) =>
      match PluralRule(f)
      case Err(e) => Err(e)
      case Ok(rule) => Ok(PluralIdx(rule))
  }

  /** The loop over the metadata lines: `plural` ends as the value of the last
      `Plural-Forms:` line. */
  method ScanHeader(lines: seq<string>) returns (plural: Option<string>)
    ensures plural == LastPluralForms(lines)
  {
    plural := None;
    var i := 0;
    while i < |lines|
      invariant 0 <= i <= |lines|
      invariant plural == LastPluralForms(lines[..i])
    {
      var l := lines[i];
      ghost var seen := lines[..i + 1];
      assert seen[i] == l && seen[..i] == lines[..i];
      if StartsWith(l, PluralFormsPrefix) {
        plural := Some(HeaderValue(l));
        assert plural == LastPluralForms(seen);
      } else {
        assert plural == LastPluralForms(seen);
      }
      i := i + 1;
    }
    assert lines[..|lines|] == lines;
  }

  /** Plural discovery as `I18n.get` runs it. */
  method DiscoverPluralTemplate(t: Catalog) returns (r: Result<string>)
    ensures r == PluralTemplate(t)
  {
    var plural: Option<string> := None;
    var pluralTemplate := PluralSimpleTemplate;
    if Metadata in t {
      plural := ScanHeader(Split(t[Metadata], '\n'));
    }
    if plural.Some? {
      var rule := PluralRule(plural.value);
      if rule.Err? {
        return Err(rule.error);
      }
      pluralTemplate := PluralIdx(rule.value);
    }
    return Ok(pluralTemplate);
  }

  /** The loop keeps nothing exactly when no line starts with `Plural-Forms:`. */
  lemma {:induction false} NoPluralFormsExactly(lines: seq<string>)
    ensures LastPluralForms(lines).None? <==> forall i :: 0 <= i < |lines| ==> !IsPluralFormsLine(lines[i])
  {
    if |lines| > 0 {
      var pre := lines[..|lines| - 1];
      NoPluralFormsExactly(pre);
      assert forall i :: 0 <= i < |pre| ==> pre[i] == lines[i];
    }
  }

  /** The loop keeps the value of the last `Plural-Forms:` line. */
  lemma {:induction false} LastPluralFormsWins(lines: seq<string>, i: nat)
    requires i < |lines| && IsPluralFormsLine(lines[i])
    requires forall j :: i < j < |lines| ==> !IsPluralFormsLine(lines[j])
    ensures LastPluralForms(lines) == Some(HeaderValue(lines[i]))
  {
    if i < |lines| - 1 {
      var pre := lines[..|lines| - 1];
      assert pre[i] == lines[i];
      assert forall j :: i < j < |pre| ==> pre[j] == lines[j];
      LastPluralFormsWins(pre, i);
    }
  }

  /** With no metadata entry, or no `Plural-Forms:` line in it, the simple template is used. */
  lemma SimpleTemplateWithoutHeader(t: Catalog)
    requires Metadata !in t || forall l :: l in Split(t[Metadata], '\n') ==> !IsPluralFormsLine(l)
    ensures PluralTemplate(t) == Ok(PluralSimpleTemplate)
  {
    if Metadata in t {
      var lines := Split(t[Metadata], '\n');
      forall i | 0 <= i < |lines|
        ensures !IsPluralFormsLine(lines[i])
      {
        assert lines[i] in lines;
      }
      NoPluralFormsExactly(lines);
      assert PluralForms(t) == None;
    }
  }

  /** Of several `Plural-Forms:` lines the last one decides. */
  lemma LastHeaderLineWins(t: Catalog, i: nat)
    requires Metadata in t
    requires i < |Split(t[Metadata], '\n')|
    requires IsPluralFormsLine(Split(t[Metadata], '\n')[i])
    requires forall j :: i < j < |Split(t[Metadata], '\n')| ==> !IsPluralFormsLine(Split(t[Metadata], '\n')[j])
    ensures PluralForms(t) == Some(HeaderValue(Split(t[Metadata], '\n')[i]))
  {
    LastPluralFormsWins(Split(t[Metadata], '\n'), i);
  }

  /** The list comprehension is empty exactly when no segment is a clause. */
  lemma {:induction false} NoPluralClauseExactly(segments: seq<string>)
    ensures FirstPluralClause(segments).None? <==> forall k :: 0 <= k < |segments| ==> !IsClause(segments[k])
  {
    if |segments| > 0 {
      var rest := segments[1..];
      NoPluralClauseExactly(rest);
      assert forall k :: 0 < k < |segments| ==> rest[k - 1] == segments[k];
    }
  }

  /** The comprehension's first element is the first clause, stripped. */
  lemma {:induction false} FirstPluralClauseAt(segments: seq<string>, k: nat)
    requires k < |segments| && IsClause(segments[k])
    requires forall m :: 0 <= m < k ==> !IsClause(segments[m])
    ensures FirstPluralClause(segments) == Some(Strip(segments[k]))
  {
    if k > 0 {
      var rest := segments[1..];
      assert !IsClause(segments[0]);
      assert rest[k - 1] == segments[k];
      forall m | 0 <= m < k - 1
        ensures !IsClause(rest[m])
      {
        assert rest[m] == segments[m + 1];
      }
      FirstPluralClauseAt(rest, k - 1);
    }
  }

  /** IndexError exactly when no segment is a clause. */
  lemma ClauseRuleExactly(segments: seq<string>)
    ensures ClauseRule(segments).Err? <==> forall k :: 0 <= k < |segments| ==> !IsClause(segments[k])
    ensures ClauseRule(segments).Err? ==> ClauseRule(segments).error == IndexError
  {
    NoPluralClauseExactly(segments);
  }

  /** Otherwise the rule is the text after `plural=` of the first clause, stripped. */
  lemma ClauseRuleAt(segments: seq<string>, k: nat)
    requires k < |segments| && IsClause(segments[k])
    requires forall m :: 0 <= m < k ==> !IsClause(segments[m])
    ensures ClauseRule(segments) == Ok(Strip(segments[k])[|ClausePrefix|..])
  {
    FirstPluralClauseAt(segments, k);
  }

  /** The usual header `nplurals=N; plural=E;` falls into three `;`-segments. */
  lemma StandardSegments(n: string, e: string)
    requires ';' !in n && ';' !in e
    ensures Split("nplurals=" + n + "; plural=" + e + ";", ';') == ["nplurals=" + n, " plural=" + e, ""]
  {
    var first := "nplurals=" + n;
    var second := " plural=" + e;
    assert ';' !in first && ';' !in second;
    assert "nplurals=" + n + "; plural=" + e + ";" == first + [';'] + (second + [';'] + "");
    SplitPiece(first, second + [';'] + "", ';');
    SplitPiece(second, "", ';');
  }

  /** `nplurals=N` is not a clause. */
  lemma NpluralsIsNoClause(n: string)
    ensures !IsClause("nplurals=" + n)
  {
    var first := "nplurals=" + n;
    StripFirst(first);
    assert Strip(first)[0] == 'n' != ClausePrefix[0];
  }

  /** `plural=E` starts with the prefix, ends where `E` does, and spaced is ` plural=E`. */
  lemma ClauseOf(e: string)
    requires e == [] || !IsSpace(e[|e| - 1])
    ensures StartsWith("plural=" + e, ClausePrefix)
    ensures !IsSpace(("plural=" + e)[|"plural=" + e| - 1])
    ensures " plural=" + e == [' '] + ("plural=" + e)
    ensures ("plural=" + e)[|ClausePrefix|..] == e
  {
    var clause := "plural=" + e;
    assert clause[..7] == ClausePrefix;
    if e != [] {
      assert clause[|clause| - 1] == e[|e| - 1];
    }
  }

  /** A clause behind one space is still a clause, and strips to itself. */
  lemma SpacedClause(clause: string)
    requires StartsWith(clause, ClausePrefix) && !IsSpace(clause[|clause| - 1])
    ensures Strip([' '] + clause) == clause
    ensures IsClause([' '] + clause)
  {
    assert clause[0] == ClausePrefix[0];
    StripLeadingSpace(clause);
  }

  /** When only the second of three segments is a clause, the rule comes from it. */
  lemma SecondSegmentRule(first: string, second: string, third: string)
    requires !IsClause(first) && IsClause(second)
    ensures ClauseRule([first, second, third]) == Ok(Strip(second)[|ClausePrefix|..])
  {
    var segments := [first, second, third];
    assert segments[1..] == [second, third];
    assert FirstPluralClause(segments[1..]) == Some(Strip(second));
  }

  /** Of those segments the second is the clause, and `E` its rule. */
  lemma StandardClause(n: string, e: string)
    requires e == [] || !IsSpace(e[|e| - 1])
    ensures ClauseRule(["nplurals=" + n, " plural=" + e, ""]) == Ok(e)
  {
    NpluralsIsNoClause(n);
    ClauseOf(e);
    SpacedClause("plural=" + e);
    SecondSegmentRule("nplurals=" + n, " plural=" + e, "");
  }

  /** The usual header `nplurals=N; plural=E;` yields the rule `E`, when neither part
      holds a `;` and `E` has no whitespace at its end. */
  lemma StandardRule(n: string, e: string)
    requires ';' !in n && ';' !in e
    requires e == [] || !IsSpace(e[|e| - 1])
    ensures PluralRule("nplurals=" + n + "; plural=" + e + ";") == Ok(e)
  {
    StandardSegments(n, e);
    StandardClause(n, e);
  }

  /** The value of a standard `Plural-Forms: F` line is `F`: the colon and the space
      after it are dropped. */
  lemma StandardLineValue(line: string, forms: string)
    requires forms != [] && forms[0] == 'n' && forms[|forms| - 1] == ';'
    requires line == PluralFormsPrefix + [' '] + forms
    ensures IsPluralFormsLine(line) && HeaderValue(line) == forms
  {
    assert line[..|PluralFormsPrefix|] == PluralFormsPrefix;
    assert line[|PluralFormsPrefix|..] == [' '] + forms;
    StripLeadingSpace(forms);
  }

  /** A standard `Plural-Forms:` line, alone in the metadata entry, is the one the
      header loop keeps, with the text after its colon stripped. */
  lemma StandardLine(line: string, forms: string)
    requires '\n' !in forms && forms != [] && forms[0] == 'n' && forms[|forms| - 1] == ';'
    requires line == PluralFormsPrefix + [' '] + forms
    ensures LastPluralForms(Split(line, '\n')) == Some(forms)
  {
    assert '\n' !in line;
    SplitPlain(line, '\n');
    StandardLineValue(line, forms);
    LastPluralFormsWins([line], 0);
  }

  /** The line `Plural-Forms: nplurals=N; plural=E;` has the value `nplurals=N; plural=E;`. */
  lemma StandardHeaderLine(n: string, e: string)
    ensures IsPluralFormsLine("Plural-Forms: nplurals=" + n + "; plural=" + e + ";")
    ensures HeaderValue("Plural-Forms: nplurals=" + n + "; plural=" + e + ";") == "nplurals=" + n + "; plural=" + e + ";"
  {
    var forms := "nplurals=" + n + "; plural=" + e + ";";
    assert "Plural-Forms: nplurals=" + n + "; plural=" + e + ";" == PluralFormsPrefix + [' '] + forms;
    StandardLineValue(PluralFormsPrefix + [' '] + forms, forms);
  }

  /** A metadata entry whose last `Plural-Forms:` line is the standard
      `Plural-Forms: nplurals=N; plural=E;` selects `pluralidx` built from `E`, whatever
      other header lines come before or after it. */
  lemma StandardHeader(t: Catalog, lines: seq<string>, i: nat, n: string, e: string)
    requires ';' !in n && ';' !in e
    requires e == [] || !IsSpace(e[|e| - 1])
    requires Metadata in t && lines == Split(t[Metadata], '\n')
    requires i < |lines| && lines[i] == "Plural-Forms: nplurals=" + n + "; plural=" + e + ";"
    requires forall j :: i < j < |lines| ==> !IsPluralFormsLine(lines[j])
    ensures PluralTemplate(t) == Ok(PluralIdx(e))
  {
    StandardHeaderLine(n, e);
    LastPluralFormsWins(lines, i);
    StandardRule(n, e);
  }

  /** The English-style header, wherever it stands among the metadata lines, selects
      `pluralidx` around exactly `(n != 1)` when no later line starts with `Plural-Forms:`. */
  lemma EnglishStyleHeader(t: Catalog, lines: seq<string>, i: nat)
    requires Metadata in t && lines == Split(t[Metadata], '\n')
    requires i < |lines| && lines[i] == EnglishPluralFormsLine
    requires forall j :: i < j < |lines| ==> !IsPluralFormsLine(lines[j])
    ensures PluralTemplate(t) == Ok(PluralIdx("(n != 1)"))
  {
    StandardHeader(t, lines, i, "2", "(n != 1)");
  }

  /** The metadata entry of a typical English catalog splits into a `Content-Type:`
      line, the `Plural-Forms:` line and the empty piece after the final newline. */
  lemma TypicalEnglishLines()
    ensures Split(TypicalEnglishHeader, '\n') == [ContentTypeLine, EnglishPluralFormsLine, ""]
  {
    var ct, pf := ContentTypeLine, EnglishPluralFormsLine;
    assert '\n' !in ct && '\n' !in pf;
    assert TypicalEnglishHeader == ct + ['\n'] + (pf + ['\n'] + "");
    SplitPiece(ct, pf + ['\n'] + "", '\n');
    SplitPiece(pf, "", '\n');
  }

  /** A catalog with that metadata entry selects `pluralidx` around `(n != 1)`. */
  lemma TypicalEnglishMetadata(t: Catalog)
    requires Metadata in t && t[Metadata] == TypicalEnglishHeader
    ensures PluralTemplate(t) == Ok(PluralIdx("(n != 1)"))
  {
    var lines := [ContentTypeLine, EnglishPluralFormsLine, ""];
    TypicalEnglishLines();
    assert !IsPluralFormsLine(lines[2]);
    EnglishStyleHeader(t, lines, 1);
  }

  /** Once the header loop has kept a value, discovery fails exactly when no `;`-segment
      of it is a `plural=` clause, and then with IndexError. */
  lemma DiscoveryFailsExactly(t: Catalog, forms: string, segments: seq<string>)
    requires PluralForms(t) == Some(forms) && segments == Split(forms, ';')
    ensures PluralTemplate(t).Err? <==> forall k :: 0 <= k < |segments| ==> !IsClause(segments[k])
    ensures PluralTemplate(t).Err? ==> PluralTemplate(t) == Err(IndexError)
  {
    assert PluralRule(forms) == ClauseRule(segments);
    ClauseRuleExactly(segments);
  }

  /** Neither `nplurals=N` nor the empty tail after the final `;` is a clause. */
  lemma NoClauseIn(n: string)
    ensures ClauseRule(["nplurals=" + n, ""]) == Err(IndexError)
  {
    var segments := ["nplurals=" + n, ""];
    NpluralsIsNoClause(n);
    assert Strip("") == "";
    assert segments[1..] == [""];
    assert FirstPluralClause(segments[1..]) == None;
  }

  /** A header `nplurals=N;` with no `plural=` clause has no rule: the list
      comprehension is empty and indexing it raises IndexError. */
  lemma MissingClause(n: string)
    requires ';' !in n
    ensures PluralRule("nplurals=" + n + ";") == Err(IndexError)
  {
    var first := "nplurals=" + n;
    assert ';' !in first;
    assert "nplurals=" + n + ";" == first + [';'] + "";
    SplitPiece(first, "", ';');
    NoClauseIn(n);
  }

  /** A catalog whose last `Plural-Forms:` line gives `nplurals=N;` and no rule cannot
      be served, whatever other header lines surround it. */
  lemma MissingClauseHeader(t: Catalog, lines: seq<string>, i: nat, n: string)
    requires ';' !in n
    requires Metadata in t && lines == Split(t[Metadata], '\n')
    requires i < |lines| && lines[i] == "Plural-Forms: nplurals=" + n + ";"
    requires forall j :: i < j < |lines| ==> !IsPluralFormsLine(lines[j])
    ensures PluralTemplate(t) == Err(IndexError)
  {
    var forms := "nplurals=" + n + ";";
    assert PluralForms(t) == Some(forms) by {
      assert lines[i] == PluralFormsPrefix + [' '] + forms;
      StandardLineValue(lines[i], forms);
      LastPluralFormsWins(lines, i);
    }
    MissingClause(n);
  }

  /** The single-form header of a catalog for a language without plurals, written
      without its rule. */
  lemma NoClauseIsIndexError(t: Catalog)
    requires Metadata in t && t[Metadata] == "Plural-Forms: nplurals=1;"
    ensures PluralTemplate(t) == Err(IndexError)
  {
    var forms := "nplurals=" + "1" + ";";
    assert t[Metadata] == PluralFormsPrefix + [' '] + forms;
    assert '\n' !in forms;
    StandardLine(t[Metadata], forms);
    MissingClause("1");
  }
}
