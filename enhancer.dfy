/** The plugin's presentation rules: flattening a choice tree back into
    rows, preselecting a lone choice, marking selects for auto-selection,
    the CSS that hides columns, and the script that widens the uploader. */
module Enhancer {
  import opened Runtime
  import opened Choices

  // =====================================================================
  // generate_combinations: the tree back into rows
  // =====================================================================

  /** A choice as a field's settings hold it, where `text` may be missing;
      missing children are an empty list. */
  datatype StoredChoice = StoredChoice(text: Option<string>, choices: seq<StoredChoice>)

  function TextOf(c: StoredChoice): string {
    c.text.GetOr("")
  }

  /** The rows for a list of choices below `path`: each choice's own rows in
      sibling order. */
  function Combinations(cs: seq<StoredChoice>, path: seq<string>): seq<seq<string>>
    decreases cs
  {
    if cs == [] then []
    else Combinations(cs[..|cs| - 1], path) + Expand(cs[|cs| - 1], path)
  }

  /** The rows for one choice: its path when it is a leaf, else the rows of
      its children below it. */
  function Expand(c: StoredChoice, path: seq<string>): seq<seq<string>>
    decreases c
  {
    var p := path + [TextOf(c)];
    if c.choices != [] then Combinations(c.choices, p) else [p]
  }

  /** `generate_combinations`: appends to `rows` the text path of every leaf
      below `currentPath`, depth first. */
  method GenerateCombinations(cs: seq<StoredChoice>, currentPath: seq<string>, rows: seq<seq<string>>)
    returns (result: seq<seq<string>>)
    ensures result == rows + Combinations(cs, currentPath)
    decreases cs
  {
    result := rows;
    if cs == [] {
      return;
    }
    for i := 0 to |cs|
      invariant result == rows + Combinations(cs[..i], currentPath)
    {
      assert cs[..i + 1][..i] == cs[..i];
      var choice := cs[i];
      var text := if choice.text.Some? then choice.text.value else "";
      var newPath := currentPath + [text];
      var subChoices := choice.choices;
      if subChoices != [] {
        result := GenerateCombinations(subChoices, newPath, result);
      } else {
        result := result + [newPath];
      }
    }
    assert cs[..|cs|] == cs;
  }

  /** `rest` is the text path, from one of `cs` down to a leaf. */
  predicate IsLeafPath(cs: seq<StoredChoice>, rest: seq<string>)
    decreases cs
  {
    exists i :: 0 <= i < |cs| && IsLeafPathVia(cs[i], rest)
  }

  predicate IsLeafPathVia(c: StoredChoice, rest: seq<string>)
    decreases c
  {
    && rest != []
    && rest[0] == TextOf(c)
    && if c.choices == [] then |rest| == 1 else IsLeafPath(c.choices, rest[1..])
  }

  /** The number of leaves below a list of choices. */
  function LeafCount(cs: seq<StoredChoice>): nat
    decreases cs
  {
    if cs == [] then 0
    else
      var c := cs[|cs| - 1];
      LeafCount(cs[..|cs| - 1]) + (if c.choices == [] then 1 else LeafCount(c.choices))
  }

  /** One row per leaf. */
  lemma {:induction false} CombinationsCount(cs: seq<StoredChoice>, path: seq<string>)
    ensures |Combinations(cs, path)| == LeafCount(cs)
    decreases cs
  {
    if cs != [] {
      var c := cs[|cs| - 1];
      CombinationsCount(cs[..|cs| - 1], path);
      if c.choices != [] {
        CombinationsCount(c.choices, path + [TextOf(c)]);
      }
    }
  }

  /** A row is produced exactly when it is `path` followed by the text path
      of a leaf. */
  lemma {:induction false} CombinationsMembers(cs: seq<StoredChoice>, path: seq<string>, r: seq<string>)
    ensures r in Combinations(cs, path) <==>
      |r| > |path| && r[..|path|] == path && IsLeafPath(cs, r[|path|..])
    decreases cs, 1
  {
    if cs != [] {
      var init, c := cs[..|cs| - 1], cs[|cs| - 1];
      CombinationsMembers(init, path, r);
      ExpandMembers(c, path, r);
      if |r| > |path| && r[..|path|] == path {
        var rest := r[|path|..];
        if IsLeafPath(cs, rest) {
          var i :| 0 <= i < |cs| && IsLeafPathVia(cs[i], rest);
          if i < |init| {
            assert init[i] == cs[i];
          }
        }
        if IsLeafPath(init, rest) {
          var i :| 0 <= i < |init| && IsLeafPathVia(init[i], rest);
          assert cs[i] == init[i];
        }
      }
    }
  }

  lemma {:induction false} ExpandMembers(c: StoredChoice, path: seq<string>, r: seq<string>)
    ensures r in Expand(c, path) <==>
      |r| > |path| && r[..|path|] == path && IsLeafPathVia(c, r[|path|..])
    decreases c, 0
  {
    var p := path + [TextOf(c)];
    if c.choices != [] {
      CombinationsMembers(c.choices, p, r);
      if |r| > |path| && r[..|path|] == path {
        var rest := r[|path|..];
        if |r| > |p| && r[..|p|] == p {
          assert rest[1..] == r[|p|..];
        }
        if IsLeafPathVia(c, rest) {
          assert IsLeafPath(c.choices, rest[1..]);
          var i :| 0 <= i < |c.choices| && IsLeafPathVia(c.choices[i], rest[1..]);
          assert |r| > |p|;
          assert r[..|p|] == p;
          assert rest[1..] == r[|p|..];
        }
      }
    } else {
      if r == p {
        assert r[|path|..] == [TextOf(c)];
      }
      if |r| > |path| && r[..|path|] == path && IsLeafPathVia(c, r[|path|..]) {
        assert r == r[..|path|] + r[|path|..];
      }
    }
  }

  // =====================================================================
  // auto_select_only_choice and add_auto_select_property
  // =====================================================================

  /** What the rules below read of a form field; `None` stands for a field
      that is not an object. Flags hold PHP truthiness (`!empty(...)`). */
  datatype FormField = FormField(fieldType: string, id: int, hideColumns: string, fullWidth: bool, autoSelectOnly: bool)

  predicate IsChainedSelect(field: Option<FormField>) {
    field.Some? && (field.value.fieldType == "chainedselect" || field.value.fieldType == "chained_select")
  }

  predicate AutoSelects(field: Option<FormField>) {
    field.Some? && field.value.autoSelectOnly
  }

  /** `auto_select_only_choice`: with the field's auto-select flag on, a lone
      choice becomes selected; nothing else ever changes. */
  function AutoSelectOnlyChoice(choices: seq<Choice>, field: Option<FormField>): (r: seq<Choice>)
    ensures |r| == |choices|
    ensures forall i :: 0 <= i < |r| ==> r[i] == choices[i].(isSelected := r[i].isSelected)
    ensures forall i :: 0 <= i < |r| ==>
      (r[i].isSelected <==> choices[i].isSelected || (AutoSelects(field) && |choices| == 1))
  {
    if !AutoSelects(field) then choices
    else if |choices| == 1 then [choices[0].(isSelected := true)]
    else choices
  }

  lemma AutoSelectIdempotent(choices: seq<Choice>, field: Option<FormField>)
    ensures AutoSelectOnlyChoice(AutoSelectOnlyChoice(choices, field), field) == AutoSelectOnlyChoice(choices, field)
  {
  }

  /** `str_replace($pat, $rep, $s)`: every occurrence of `pat`, left to right
      and without overlap, replaced by `rep`. */
  function ReplaceAll(s: string, pat: string, rep: string): string
    requires pat != []
    decreases |s|
  {
    if s == [] then []
    else if pat <= s then rep + ReplaceAll(s[|pat|..], pat, rep)
    else [s[0]] + ReplaceAll(s[1..], pat, rep)
  }

  const SelectOpen: string := "<select"
  const AutoSelectAttribute: string := " data-auto-select-only=\"true\""
  const MarkedSelectOpen: string := SelectOpen + AutoSelectAttribute

  /** Rewritten content whose head was a `<select` starts with '<'. */
  lemma SelectHead(u: string)
    ensures SelectOpen <= u ==>
      var f := ReplaceAll(u, SelectOpen, MarkedSelectOpen); f != [] && f[0] == '<'
  {
    if SelectOpen <= u {
      var f := ReplaceAll(u, SelectOpen, MarkedSelectOpen);
      assert f == MarkedSelectOpen + ReplaceAll(u[|SelectOpen|..], SelectOpen, MarkedSelectOpen);
      assert MarkedSelectOpen[0] == SelectOpen[0];
    }
  }

  /** Text without '<' at the head of the rewritten content was already at
      the head of the content. */
  lemma {:induction false} HeadWithoutTag(u: string, w: string)
    ensures '<' !in w && w <= ReplaceAll(u, SelectOpen, MarkedSelectOpen) ==> w <= u
    decreases |w|
  {
    if w != [] && u != [] && '<' !in w {
      var f := ReplaceAll(u, SelectOpen, MarkedSelectOpen);
      SelectHead(u);
      assert w[0] in w;
      if !(SelectOpen <= u) {
        assert f == [u[0]] + ReplaceAll(u[1..], SelectOpen, MarkedSelectOpen);
        assert '<' !in w[1..] by {
          forall j | 0 <= j < |w[1..]|
            ensures w[1..][j] != '<'
          {
            assert w[1..][j] == w[j + 1];
          }
        }
        HeadWithoutTag(u[1..], w[1..]);
      }
    }
  }

  /** A `<select` at the head of the rewritten content was already there. */
  lemma TagPrefix(s: string)
    ensures SelectOpen <= ReplaceAll(s, SelectOpen, MarkedSelectOpen) ==> SelectOpen <= s
  {
    if s != [] && !(SelectOpen <= s) {
      var f := ReplaceAll(s, SelectOpen, MarkedSelectOpen);
      assert f == [s[0]] + ReplaceAll(s[1..], SelectOpen, MarkedSelectOpen);
      var tail := SelectOpen[1..];
      assert tail == "select";
      HeadWithoutTag(s[1..], tail);
      assert SelectOpen == [SelectOpen[0]] + tail;
    }
  }

  /** The rewrite never makes a marked tag where the content had no tag. */
  lemma NoFalseMark(s: string)
    requires !(SelectOpen <= s)
    ensures !(MarkedSelectOpen <= ReplaceAll(s, SelectOpen, MarkedSelectOpen))
  {
    TagPrefix(s);
    assert MarkedSelectOpen[..|SelectOpen|] == SelectOpen;
  }

  /** Taking the attribute out again gives back the original content. */
  lemma {:induction false} MarkRoundTrip(s: string)
    ensures ReplaceAll(ReplaceAll(s, SelectOpen, MarkedSelectOpen), MarkedSelectOpen, SelectOpen) == s
    decreases |s|
  {
    if s != [] {
      var f := ReplaceAll(s, SelectOpen, MarkedSelectOpen);
      if SelectOpen <= s {
        MarkRoundTrip(s[|SelectOpen|..]);
        var g := ReplaceAll(s[|SelectOpen|..], SelectOpen, MarkedSelectOpen);
        assert f == MarkedSelectOpen + g;
        assert (MarkedSelectOpen + g)[|MarkedSelectOpen|..] == g;
        assert s == SelectOpen + s[|SelectOpen|..];
      } else {
        NoFalseMark(s);
        MarkRoundTrip(s[1..]);
        assert f[1..] == ReplaceAll(s[1..], SelectOpen, MarkedSelectOpen);
      }
    }
  }

  /** Content with no `<select` is left as it is. */
  lemma {:induction false} ReplaceAbsent(s: string)
    requires forall j :: 0 <= j <= |s| - |SelectOpen| ==> !(SelectOpen <= s[j..])
    ensures ReplaceAll(s, SelectOpen, MarkedSelectOpen) == s
    decreases |s|
  {
    if s != [] {
      assert s[0..] == s;
      forall j | 0 <= j <= |s[1..]| - |SelectOpen|
        ensures !(SelectOpen <= s[1..][j..])
      {
        assert s[1..][j..] == s[j + 1..];
      }
      ReplaceAbsent(s[1..]);
    }
  }

  /** The attribute text holds no '<'. */
  lemma MarkTail(j: nat)
    requires 0 < j < |MarkedSelectOpen|
    ensures MarkedSelectOpen[j] != '<'
  {
    var tail := "select data-auto-select-only=\"true\"";
    assert MarkedSelectOpen == ['<'] + tail;
    assert '<' !in tail;
    assert MarkedSelectOpen[j] == tail[j - 1];
  }

  /** Every `<select` in `f` carries the attribute. */
  predicate AllMarked(f: string) {
    forall j :: 0 <= j <= |f| - |SelectOpen| ==> SelectOpen <= f[j..] ==> MarkedSelectOpen <= f[j..]
  }

  /** In the rewritten content every `<select` carries the attribute. */
  lemma {:induction false} EveryTagMarked(s: string)
    ensures AllMarked(ReplaceAll(s, SelectOpen, MarkedSelectOpen))
    decreases |s|
  {
    var f := ReplaceAll(s, SelectOpen, MarkedSelectOpen);
    if s != [] {
      if SelectOpen <= s {
        var g := ReplaceAll(s[|SelectOpen|..], SelectOpen, MarkedSelectOpen);
        EveryTagMarked(s[|SelectOpen|..]);
        assert f == MarkedSelectOpen + g;
        forall j | 0 <= j <= |f| - |SelectOpen|
          ensures SelectOpen <= f[j..] ==> MarkedSelectOpen <= f[j..]
        {
          if j >= |MarkedSelectOpen| {
            var k := j - |MarkedSelectOpen|;
            assert f[j..] == g[k..];
            assert SelectOpen <= g[k..] ==> MarkedSelectOpen <= g[k..];
          } else if j > 0 {
            MarkTail(j);
            assert f[j..][0] == MarkedSelectOpen[j];
            assert SelectOpen[0] == '<';
          }
        }
      } else {
        var g := ReplaceAll(s[1..], SelectOpen, MarkedSelectOpen);
        EveryTagMarked(s[1..]);
        assert f == [s[0]] + g;
        TagPrefix(s);
        forall j | 0 <= j <= |f| - |SelectOpen|
          ensures SelectOpen <= f[j..] ==> MarkedSelectOpen <= f[j..]
        {
          if j > 0 {
            assert f[j..] == g[j - 1..];
            assert SelectOpen <= g[j - 1..] ==> MarkedSelectOpen <= g[j - 1..];
          } else {
            assert f[j..] == f;
          }
        }
      }
    }
  }

  /** `add_auto_select_property`: in a chained select field with the
      auto-select flag on, every `<select` gets the marker attribute. */
  function AddAutoSelectProperty(content: string, field: Option<FormField>): (r: string)
    ensures !(IsChainedSelect(field) && AutoSelects(field)) ==> r == content
    ensures IsChainedSelect(field) && AutoSelects(field) ==> ReplaceAll(r, MarkedSelectOpen, SelectOpen) == content
    ensures IsChainedSelect(field) && AutoSelects(field) ==> AllMarked(r)
  {
    if IsChainedSelect(field) && AutoSelects(field) then
      MarkRoundTrip(content);
      EveryTagMarked(content);
      ReplaceAll(content, SelectOpen, MarkedSelectOpen)
    else
      content
  }

  // =====================================================================
  // enqueue_field_css: hide rules, full-width rules, per-request dedupe
  // =====================================================================

  /** One CSS rule: hide the container of input number `container` of a
      field, or stretch a field's selects to the full width. */
  datatype CssRule =
    | HideContainer(formId: int, fieldId: int, container: int)
    | FullWidth(formId: int, fieldId: int)

  /** The rule as `sprintf` renders it. */
  function RenderRule(rule: CssRule): string {
    match rule
    case HideContainer(f, d, c) =>
      "#input_" + IntToString(f) + "_" + IntToString(d) + "_" + IntToString(c)
        + "_container { display: none !important; }"
    case FullWidth(f, d) =>
      "#field_" + IntToString(f) + "_" + IntToString(d)
        + " select { width: 100% !important; min-width: 100% !important; }"
  }

  /** The style element printed in the footer, if there is any rule. */
  function FooterStyle(rules: seq<CssRule>): (r: Option<string>)
    ensures r.None? <==> rules == []
  {
    if rules == [] then None
    else Some("<style type=\"text/css\">" + Join(seq(|rules|, i requires 0 <= i < |rules| => RenderRule(rules[i])), ' ') + "</style>")
  }

  /** The key under which a field's rules are remembered for the request. */
  function FieldKey(formId: int, fieldId: int): string {
    IntToString(formId) + "_" + IntToString(fieldId)
  }

  lemma IntToStringHasNoUnderscore(i: int)
    ensures '_' !in IntToString(i)
  {
    var s := IntToString(i);
    if i < 0 {
      var d := NatToString(-i);
      assert s == ['-'] + d;
      assert forall k :: 1 <= k < |s| ==> s[k] == d[k - 1];
    }
    assert forall k :: 0 <= k < |s| ==> s[k] != '_';
  }

  /** Different fields, or the same field id in different forms, never share
      a key. */
  lemma FieldKeyInjective(f1: int, d1: int, f2: int, d2: int)
    ensures FieldKey(f1, d1) == FieldKey(f2, d2) <==> f1 == f2 && d1 == d2
  {
    var a, b, c, d := IntToString(f1), IntToString(d1), IntToString(f2), IntToString(d2);
    IntToStringHasNoUnderscore(f1);
    IntToStringHasNoUnderscore(d1);
    IntToStringHasNoUnderscore(f2);
    IntToStringHasNoUnderscore(d2);
    assert Join([a, b], '_') == FieldKey(f1, d1);
    assert Join([c, d], '_') == FieldKey(f2, d2);
    SplitJoin([a, b], '_');
    SplitJoin([c, d], '_');
    JsParseIntOfIntToString(f1);
    JsParseIntOfIntToString(d1);
    JsParseIntOfIntToString(f2);
    JsParseIntOfIntToString(d2);
  }

  /** The hide rules for the pieces of a setting, in order: piece `i`
      read as an integer hides the container one past it. */
  function HideRulesOf(formId: int, fieldId: int, pieces: seq<string>): (r: seq<CssRule>)
    ensures |r| == |pieces|
  {
    if pieces == [] then []
    else
      var last := pieces[|pieces| - 1];
      HideRulesOf(formId, fieldId, pieces[..|pieces| - 1]) + [HideContainer(formId, fieldId, PhpIntval(PhpTrim(last)) + 1)]
  }

  /** Every rule for the pieces hides a container of the given field. */
  lemma {:induction false} HideRulesOfField(formId: int, fieldId: int, pieces: seq<string>)
    ensures forall rule :: rule in HideRulesOf(formId, fieldId, pieces) ==>
      rule.HideContainer? && rule.formId == formId && rule.fieldId == fieldId
  {
    if pieces != [] {
      var init := pieces[..|pieces| - 1];
      HideRulesOfField(formId, fieldId, init);
      var rule := HideContainer(formId, fieldId, PhpIntval(PhpTrim(pieces[|pieces| - 1])) + 1);
      assert HideRulesOf(formId, fieldId, pieces) == HideRulesOf(formId, fieldId, init) + [rule];
    }
  }

  /** The hide rules of a field: each comma-separated index `i` of
      `hideColumns` hides container `i + 1`. An empty setting hides nothing. */
  function HideRules(formId: int, fieldId: int, hideColumns: string): seq<CssRule> {
    if hideColumns == "" then [] else HideRulesOf(formId, fieldId, Split(hideColumns, ','))
  }

  /** The hide rules as the plugin writes them: the setting is skipped when
      PHP's `empty()` holds, which is also the case for `"0"`. */
  function HideRulesAsWritten(formId: int, fieldId: int, hideColumns: string): seq<CssRule> {
    if PhpEmpty(hideColumns) then [] else HideRules(formId, fieldId, hideColumns)
  }

  /** The setting the form editor stores: the zero-based indices of the
      hidden columns joined with commas. */
  function EditorHideColumns(indices: seq<nat>): string {
    Join(Rendered(indices), ',')
  }

  /** The decimal renderings of the indices, in order. */
  function Rendered(indices: seq<nat>): (r: seq<string>)
    ensures |r| == |indices|
    ensures forall k :: 0 <= k < |r| ==> r[k] == NatToString(indices[k])
  {
    if indices == [] then [] else Rendered(indices[..|indices| - 1]) + [NatToString(indices[|indices| - 1])]
  }

  /** The editor's rendering of an index reads back as that index. */
  lemma EditorIndexReadsBack(n: nat)
    ensures PhpIntval(PhpTrim(NatToString(n))) == n
  {
    var t := NatToString(n);
    assert IsDigit(t[0]) && IsDigit(t[|t| - 1]);
    TrimUnchanged(t, PhpTrimChars);
    PhpIntvalOfNatToString(n);
  }

  /** Splitting the editor's setting gives back the rendered indices; the
      setting is empty exactly when no column is hidden. */
  lemma EditorSplit(indices: seq<nat>)
    ensures EditorHideColumns(indices) == "" <==> indices == []
    ensures indices != [] ==> Split(EditorHideColumns(indices), ',') == Rendered(indices)
  {
    var parts := Rendered(indices);
    var h := EditorHideColumns(indices);
    if indices != [] {
      assert parts[0] != [];
      if |parts| > 1 {
        assert h == parts[0] + [','] + Join(parts[1..], ',');
      }
      forall k | 0 <= k < |parts|
        ensures ',' !in parts[k]
      {
        IntToStringHasNoComma(indices[k]);
      }
      SplitJoin(parts, ',');
    }
  }

  /** One rule hiding the container one past each index, in order. */
  function Containers(formId: int, fieldId: int, indices: seq<nat>): seq<CssRule> {
    if indices == [] then []
    else Containers(formId, fieldId, indices[..|indices| - 1]) + [HideContainer(formId, fieldId, indices[|indices| - 1] + 1)]
  }

  lemma {:induction false} ContainersAt(formId: int, fieldId: int, indices: seq<nat>)
    ensures var r := Containers(formId, fieldId, indices);
      |r| == |indices| && forall k :: 0 <= k < |r| ==> r[k] == HideContainer(formId, fieldId, indices[k] + 1)
  {
    if indices != [] {
      var init := indices[..|indices| - 1];
      ContainersAt(formId, fieldId, init);
      var r0 := Containers(formId, fieldId, init);
      var r := Containers(formId, fieldId, indices);
      forall k | 0 <= k < |r|
        ensures r[k] == HideContainer(formId, fieldId, indices[k] + 1)
      {
        if k < |r0| {
          assert r[k] == r0[k] && indices[k] == init[k];
        }
      }
    }
  }

  /** Rules for pieces that read back as the indices hide the containers one
      past them. */
  lemma {:induction false} HideRulesOfIndices(formId: int, fieldId: int, pieces: seq<string>, indices: seq<nat>)
    requires |pieces| == |indices|
    requires forall k :: 0 <= k < |pieces| ==> PhpIntval(PhpTrim(pieces[k])) == indices[k]
    ensures HideRulesOf(formId, fieldId, pieces) == Containers(formId, fieldId, indices)
  {
    if pieces != [] {
      var n := |pieces| - 1;
      var init := pieces[..n];
      assert pieces == init + [pieces[n]];
      HideRulesOfIndices(formId, fieldId, init, indices[..n]);
      HideRulesOfSnoc(formId, fieldId, init, pieces[n], indices[n]);
    }
  }

  /** One piece more that reads as the index `v`. */
  lemma HideRulesOfSnoc(formId: int, fieldId: int, pieces: seq<string>, x: string, v: int)
    requires PhpIntval(PhpTrim(x)) == v
    ensures HideRulesOf(formId, fieldId, pieces + [x]) ==
      HideRulesOf(formId, fieldId, pieces) + [HideContainer(formId, fieldId, v + 1)]
  {
    assert (pieces + [x])[..|pieces|] == pieces;
  }

  /** Every index the editor stores becomes one rule hiding the container
      one past it, in the editor's order. */
  lemma HideRulesOfEditor(formId: int, fieldId: int, indices: seq<nat>)
    ensures var r := HideRules(formId, fieldId, EditorHideColumns(indices));
      |r| == |indices| && forall k :: 0 <= k < |r| ==> r[k] == HideContainer(formId, fieldId, indices[k] + 1)
  {
    EditorSplit(indices);
    ContainersAt(formId, fieldId, indices);
    if indices != [] {
      var pieces := Rendered(indices);
      forall k | 0 <= k < |pieces|
        ensures PhpIntval(PhpTrim(pieces[k])) == indices[k]
      {
        EditorIndexReadsBack(indices[k]);
      }
      HideRulesOfIndices(formId, fieldId, pieces, indices);
    }
  }

  /** Hiding only the first column, the editor stores `"0"`. */
  lemma EditorStoresZero()
    ensures EditorHideColumns([0]) == "0"
  {
    var one: seq<nat> := [0];
    assert NatToString(0) == "0";
    assert Rendered(one) == [NatToString(0)];
  }

  /** The plugin as written loses the setting that hides only the first
      column: the editor stores `"0"` and no rule comes out. */
  lemma HideFirstColumnLost(formId: int, fieldId: int)
    ensures EditorHideColumns([0]) == "0"
    ensures HideRulesAsWritten(formId, fieldId, EditorHideColumns([0])) == []
    ensures HideRules(formId, fieldId, EditorHideColumns([0])) == [HideContainer(formId, fieldId, 1)]
  {
    EditorStoresZero();
    HideRulesOfZero(formId, fieldId);
  }

  /** Read as intended, `"0"` hides the first container. */
  lemma HideRulesOfZero(formId: int, fieldId: int)
    ensures HideRules(formId, fieldId, "0") == [HideContainer(formId, fieldId, 1)]
  {
    EditorStoresZero();
    HideOnlyColumn(formId, fieldId, 0);
  }

  /** A hand-written index in exponent form is read as PHP reads it:
      `intval("1e1")` is 10, so container 11 is hidden. */
  lemma HideIndexExponent(formId: int, fieldId: int)
    ensures HideRulesAsWritten(formId, fieldId, "1e1") == [HideContainer(formId, fieldId, 11)]
  {
    PhpIntvalExponent();
    assert Split("1e1", ',') == ["1e1"];
    TrimUnchanged("1e1", PhpTrimChars);
    HideRulesOfSnoc(formId, fieldId, [], "1e1", 10);
    assert [] + ["1e1"] == ["1e1"];
  }

  /** Read as intended, the setting that hides one column hides the
      container one past its index. */
  lemma HideOnlyColumn(formId: int, fieldId: int, n: nat)
    ensures HideRules(formId, fieldId, EditorHideColumns([n])) == [HideContainer(formId, fieldId, n + 1)]
  {
    HideRulesOfEditor(formId, fieldId, [n]);
    var r := HideRules(formId, fieldId, EditorHideColumns([n]));
    assert r == [r[0]];
  }

  /** Apart from `"0"`, the plugin's rules are the intended ones. */
  lemma HideRulesAgree(formId: int, fieldId: int, hideColumns: string)
    ensures HideRulesAsWritten(formId, fieldId, hideColumns) == HideRules(formId, fieldId, hideColumns)
      <==> hideColumns != "0"
  {
    if hideColumns == "0" {
      HideRulesOfZero(formId, fieldId);
    }
  }

  /** Of all the settings the editor writes, the plugin mishandles exactly
      the one that hides only the first column. */
  lemma EditorRulesAsWritten(formId: int, fieldId: int, indices: seq<nat>)
    ensures var h := EditorHideColumns(indices);
      HideRulesAsWritten(formId, fieldId, h) == HideRules(formId, fieldId, h) <==> indices != [0]
  {
    HideRulesAgree(formId, fieldId, EditorHideColumns(indices));
    EditorStoresOnlyZero(indices);
  }

  /** The editor writes `"0"` for the first column alone and for nothing else. */
  lemma EditorStoresOnlyZero(indices: seq<nat>)
    ensures EditorHideColumns(indices) == "0" <==> indices == [0]
  {
    var h := EditorHideColumns(indices);
    EditorSplit(indices);
    assert Split("0", ',') == ["0"];
    if indices == [0] {
      EditorStoresZero();
    } else if |indices| == 1 {
      var n := indices[0];
      EditorIndexReadsBack(n);
      EditorIndexReadsBack(0);
      assert NatToString(0) == "0";
      assert Split(h, ',') == [NatToString(n)];
      assert NatToString(n) != "0";
      assert Split(h, ',') != Split("0", ',');
    } else if |indices| > 1 {
      assert |Split(h, ',')| != |Split("0", ',')|;
    }
  }

  /** All rules of one field, as the plugin emits them. */
  function FieldRules(formId: int, field: FormField): seq<CssRule> {
    HideRulesAsWritten(formId, field.id, field.hideColumns)
      + (if field.fullWidth then [FullWidth(formId, field.id)] else [])
  }

  /** Every rule of a field names that field of the form. */
  lemma FieldRulesOfField(formId: int, field: FormField)
    ensures forall rule :: rule in FieldRules(formId, field) ==> rule.formId == formId && rule.fieldId == field.id
  {
    if !PhpEmpty(field.hideColumns) {
      HideRulesOfField(formId, field.id, Split(field.hideColumns, ','));
    }
  }

  /** The rules one pass over `fields` emits and the remembered keys after
      it: a chained select whose key is not remembered yet contributes its
      rules and is remembered; every other field is passed over. */
  function CssPass(formId: int, fields: seq<Option<FormField>>, added: set<string>): (seq<CssRule>, set<string>)
    decreases |fields|
  {
    if fields == [] then ([], added)
    else CssStep(formId, fields[|fields| - 1], CssPass(formId, fields[..|fields| - 1], added))
  }

  /** One field of the pass, given the rules and keys so far. */
  function CssStep(formId: int, field: Option<FormField>, prev: (seq<CssRule>, set<string>)): (seq<CssRule>, set<string>) {
    if !IsChainedSelect(field) || FieldKey(formId, field.value.id) in prev.1 then prev
    else (prev.0 + FieldRules(formId, field.value), prev.1 + {FieldKey(formId, field.value.id)})
  }

  /** One field more: the pass as `enqueue_field_css` takes each step. */
  lemma CssPassStep(formId: int, fields: seq<Option<FormField>>, i: nat, added: set<string>)
    requires i < |fields|
    ensures CssPass(formId, fields[..i + 1], added) == CssStep(formId, fields[i], CssPass(formId, fields[..i], added))
  {
    assert fields[..i + 1][..i] == fields[..i];
  }

  /** The keys of the chained select fields of a form. */
  function ChainedKeys(formId: int, fields: seq<Option<FormField>>): set<string> {
    set i | 0 <= i < |fields| && IsChainedSelect(fields[i]) :: FieldKey(formId, fields[i].value.id)
  }

  lemma ChainedKeysSnoc(formId: int, fields: seq<Option<FormField>>)
    requires fields != []
    ensures var last := fields[|fields| - 1];
      ChainedKeys(formId, fields) == ChainedKeys(formId, fields[..|fields| - 1])
        + (if IsChainedSelect(last) then {FieldKey(formId, last.value.id)} else {})
  {
    var n := |fields| - 1;
    ChainedKeysGrow(formId, fields);
    ChainedKeysCover(formId, fields);
    if IsChainedSelect(fields[n]) {
      assert FieldKey(formId, fields[n].value.id) in ChainedKeys(formId, fields);
    }
  }

  lemma ChainedKeysGrow(formId: int, fields: seq<Option<FormField>>)
    requires fields != []
    ensures ChainedKeys(formId, fields[..|fields| - 1]) <= ChainedKeys(formId, fields)
  {
    var init := fields[..|fields| - 1];
    forall k | k in ChainedKeys(formId, init)
      ensures k in ChainedKeys(formId, fields)
    {
      var i :| 0 <= i < |init| && IsChainedSelect(init[i]) && k == FieldKey(formId, init[i].value.id);
      assert fields[i] == init[i];
    }
  }

  lemma ChainedKeysCover(formId: int, fields: seq<Option<FormField>>)
    requires fields != []
    ensures var last := fields[|fields| - 1];
      ChainedKeys(formId, fields) <= ChainedKeys(formId, fields[..|fields| - 1])
        + (if IsChainedSelect(last) then {FieldKey(formId, last.value.id)} else {})
  {
    var init := fields[..|fields| - 1];
    var n := |fields| - 1;
    forall i | 0 <= i < n && IsChainedSelect(fields[i])
      ensures FieldKey(formId, fields[i].value.id) in ChainedKeys(formId, init)
    {
      assert init[i] == fields[i];
    }
  }

  /** After a pass, exactly the keys of the form's chained selects have been
      added to what was remembered. */
  lemma {:induction false} CssPassAdded(formId: int, fields: seq<Option<FormField>>, added: set<string>)
    ensures CssPass(formId, fields, added).1 == added + ChainedKeys(formId, fields)
    decreases |fields|
  {
    if fields != [] {
      CssPassAdded(formId, fields[..|fields| - 1], added);
      ChainedKeysSnoc(formId, fields);
    }
  }

  /** A pass over fields whose keys are all remembered emits nothing. */
  lemma {:induction false} CssPassRemembered(formId: int, fields: seq<Option<FormField>>, added: set<string>)
    requires ChainedKeys(formId, fields) <= added
    ensures CssPass(formId, fields, added) == ([], added)
    decreases |fields|
  {
    if fields != [] {
      ChainedKeysSnoc(formId, fields);
      CssPassRemembered(formId, fields[..|fields| - 1], added);
    }
  }

  /** Rendering the same form twice in one request emits its rules once. */
  lemma CssPassTwice(formId: int, fields: seq<Option<FormField>>, added: set<string>)
    ensures CssPass(formId, fields, CssPass(formId, fields, added).1).0 == []
  {
    CssPassAdded(formId, fields, added);
    CssPassRemembered(formId, fields, CssPass(formId, fields, added).1);
  }

  /** Every rule emitted belongs to a chained select of the form whose key
      was not remembered before the pass. */
  lemma {:induction false} CssPassFresh(formId: int, fields: seq<Option<FormField>>, added: set<string>)
    ensures forall rule :: rule in CssPass(formId, fields, added).0 ==>
      rule.formId == formId && FieldKey(formId, rule.fieldId) !in added &&
      exists i :: 0 <= i < |fields| && IsChainedSelect(fields[i]) && fields[i].value.id == rule.fieldId
    decreases |fields|
  {
    if fields != [] {
      var init := fields[..|fields| - 1];
      var n := |fields| - 1;
      CssPassFresh(formId, init, added);
      CssPassAdded(formId, init, added);
      var prev := CssPass(formId, init, added);
      forall rule | rule in CssPass(formId, fields, added).0
        ensures rule.formId == formId && FieldKey(formId, rule.fieldId) !in added &&
          exists i :: 0 <= i < |fields| && IsChainedSelect(fields[i]) && fields[i].value.id == rule.fieldId
      {
        if rule in prev.0 {
          var i :| 0 <= i < |init| && IsChainedSelect(init[i]) && init[i].value.id == rule.fieldId;
          assert fields[i] == init[i];
        } else {
          var field := fields[n].value;
          assert rule in FieldRules(formId, field);
          FieldRulesOfField(formId, field);
          assert rule.formId == formId && rule.fieldId == field.id;
        }
      }
    }
  }

  /** A form whose one chained select hides only its first column gets no
      rule and no style block from the plugin, yet the field is remembered. */
  lemma FirstColumnPassLost(formId: int, fieldId: int)
    ensures var fields := [Some(FormField("chainedselect", fieldId, "0", false, false))];
      && CssPass(formId, fields, {}) == ([], {FieldKey(formId, fieldId)})
      && FooterStyle(CssPass(formId, fields, {}).0).None?
  {
    var field := FormField("chainedselect", fieldId, "0", false, false);
    var fields := [Some(field)];
    assert fields[..0] == [];
    var none: set<string> := {};
    var start: (seq<CssRule>, set<string>) := ([], none);
    assert CssPass(formId, fields, none) == CssStep(formId, Some(field), start);
    assert FieldRules(formId, field) == [];
    assert start.0 + FieldRules(formId, field) == [];
    assert start.1 + {FieldKey(formId, fieldId)} == {FieldKey(formId, fieldId)};
  }

  /** Per-request state of `enqueue_field_css`: the keys of the fields whose
      rules were already emitted (the function's static `$css_added`). */
  class CssEnqueuer {
    var cssAdded: set<string>

    constructor()
      ensures cssAdded == {}
    {
      cssAdded := {};
    }

    /** `enqueue_field_css`: emits the rules of the form's chained selects not
        seen before in the request and remembers them; a form without a field
        list changes nothing. */
    method EnqueueFieldCss(formId: int, fields: Option<seq<Option<FormField>>>)
      returns (rules: seq<CssRule>, footer: Option<string>)
      modifies this
      ensures fields.None? ==> rules == [] && cssAdded == old(cssAdded)
      ensures fields.Some? ==> (rules, cssAdded) == CssPass(formId, fields.value, old(cssAdded))
      ensures footer == FooterStyle(rules)
    {
      rules := [];
      if fields.None? {
        footer := None;
        return;
      }
      var fs := fields.value;
      for i := 0 to |fs|
        invariant (rules, cssAdded) == CssPass(formId, fs[..i], old(cssAdded))
      {
        CssPassStep(formId, fs, i, old(cssAdded));
        var field := fs[i];
        ghost var prev := (rules, cssAdded);
        if !IsChainedSelect(field) {
          assert CssStep(formId, field, prev) == prev;
          continue;
        }
        var key := FieldKey(formId, field.value.id);
        if key in cssAdded {
          assert CssStep(formId, field, prev) == prev;
          continue;
        }
        rules := AppendHideRules(rules, formId, field.value.id, field.value.hideColumns);
        ghost var hidden := rules;
        if field.value.fullWidth {
          rules := rules + [FullWidth(formId, field.value.id)];
        }
        FieldRulesAppended(formId, field.value, prev.0, hidden, rules);
        cssAdded := cssAdded + {key};
        assert (rules, cssAdded) == CssStep(formId, field, prev);
      }
      assert fs[..|fs|] == fs;
      footer := FooterStyle(rules);
    }
  }

  /** The rules before a field, its hide rules, then its full-width rule if
      it asks for one, are the rules before it followed by its own. */
  lemma FieldRulesAppended(formId: int, field: FormField, before: seq<CssRule>, hidden: seq<CssRule>, after: seq<CssRule>)
    requires hidden == before + HideRulesAsWritten(formId, field.id, field.hideColumns)
    requires after == if field.fullWidth then hidden + [FullWidth(formId, field.id)] else hidden
    ensures after == before + FieldRules(formId, field)
  {
  }

  /** The inner loop of `enqueue_field_css`: one hide rule per piece of a
      setting that is not PHP-`empty`, appended to `rules`. */
  method AppendHideRules(rules: seq<CssRule>, formId: int, fieldId: int, hideColumns: string)
    returns (result: seq<CssRule>)
    ensures result == rules + HideRulesAsWritten(formId, fieldId, hideColumns)
  {
    result := rules;
    if PhpEmpty(hideColumns) {
      return;
    }
    var hidden := Split(hideColumns, ',');
    for j := 0 to |hidden|
      invariant result == rules + HideRulesOf(formId, fieldId, hidden[..j])
    {
      assert hidden[..j + 1][..j] == hidden[..j];
      var index := PhpIntval(PhpTrim(hidden[j]));
      result := result + [HideContainer(formId, fieldId, index + 1)];
    }
    assert hidden[..|hidden|] == hidden;
  }

  // =====================================================================
  // inject_xlsx_plupload_script
  // =====================================================================

  const EditorScriptHandle: string := "gform_chained_selects_admin_form_editor"

  /** `inject_xlsx_plupload_script`: the chained selects editor script gets
      the uploader wrapper `wrapper` placed before it, on its own line; every
      other script tag is returned as it is. */
  function InjectXlsxPluploadScript(tag: string, handle: string, wrapper: string): (r: string)
    ensures handle != EditorScriptHandle ==> r == tag
    ensures handle == EditorScriptHandle ==>
      |r| == |wrapper| + 1 + |tag| && r[..|wrapper|] == wrapper && r[|wrapper|] == '\n' && r[|wrapper| + 1..] == tag
  {
    if handle != EditorScriptHandle then tag else wrapper + "\n" + tag
  }
}
