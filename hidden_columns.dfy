/** The hidden-column setting of a chained select field: how the form
    editor reads, toggles and writes it, and how the server side turns its
    three storage formats into one sorted list of column numbers. */
module HiddenColumns {
  import opened Runtime

  // =====================================================================
  // Sorted lists without repetition
  // =====================================================================

  predicate StrictlyAscending(xs: seq<int>) {
    forall i, j :: 0 <= i < j < |xs| ==> xs[i] < xs[j]
  }

  predicate NoRepeats(xs: seq<int>) {
    forall i, j :: 0 <= i < j < |xs| ==> xs[i] != xs[j]
  }

  /** `x` put into its place in an ascending list that does not hold it. */
  function InsertSorted(x: int, s: seq<int>): (r: seq<int>)
    requires StrictlyAscending(s) && x !in s
    ensures |r| == |s| + 1
    ensures forall y :: y in r <==> y in s || y == x
    ensures StrictlyAscending(r)
  {
    if s == [] || x < s[0] then [x] + s
    else
      var rest := InsertSorted(x, s[1..]);
      assert forall j :: 0 <= j < |rest| ==> rest[j] > s[0] by {
        forall j | 0 <= j < |rest|
          ensures rest[j] > s[0]
        {
          assert rest[j] in rest;
          if rest[j] != x {
            var k :| 0 <= k < |s[1..]| && s[1..][k] == rest[j];
            assert s[k + 1] == rest[j];
          }
        }
      }
      [s[0]] + rest
  }

  /** PHP's `sort()` and JavaScript's `sort((a, b) => a - b)` on a list of
      integers without repetitions: the same integers, ascending. */
  function SortDistinct(xs: seq<int>): (r: seq<int>)
    requires NoRepeats(xs)
    ensures |r| == |xs|
    ensures forall y :: y in r <==> y in xs
    ensures StrictlyAscending(r)
  {
    if xs == [] then []
    else
      var init := xs[..|xs| - 1];
      assert forall k :: 0 <= k < |init| ==> init[k] == xs[k];
      InsertSorted(xs[|xs| - 1], SortDistinct(init))
  }

  lemma DistinctHasNoRepeats(xs: seq<int>)
    ensures NoRepeats(Distinct(xs))
  {
  }

  lemma NoMembersEmpty(xs: seq<int>)
    ensures xs == [] || xs[0] in xs
  {
  }

  /** Two ascending lists with the same members are the same list. */
  lemma {:induction false} AscendingUnique(a: seq<int>, b: seq<int>)
    requires StrictlyAscending(a) && StrictlyAscending(b)
    requires forall y :: y in a <==> y in b
    ensures a == b
    decreases |a|
  {
    if a != [] {
      assert a[0] in a;
      assert a[0] in b;
      assert b != [];
      assert b[0] in a;
      var i :| 0 <= i < |a| && a[i] == b[0];
      var j :| 0 <= j < |b| && b[j] == a[0];
      assert a[0] <= a[i] && b[0] <= b[j];
      assert a[0] == b[0];
      forall y
        ensures y in a[1..] <==> y in b[1..]
      {
        if y in a[1..] {
          var k :| 1 <= k < |a| && a[k] == y;
          assert y > a[0];
          assert y in b;
          var m :| 0 <= m < |b| && b[m] == y;
          assert m != 0;
          assert b[m] == b[1..][m - 1];
        }
        if y in b[1..] {
          var k :| 1 <= k < |b| && b[k] == y;
          assert y > b[0];
          assert y in a;
          var m :| 0 <= m < |a| && a[m] == y;
          assert m != 0;
          assert a[m] == a[1..][m - 1];
        }
      }
      AscendingUnique(a[1..], b[1..]);
    } else {
      NoMembersEmpty(b);
    }
  }

  // =====================================================================
  // gfcse_get_hidden_columns
  // =====================================================================

  /** A PHP value as the array property may hold it; `OtherValue` stands
      for every non-integer, non-string value. */
  datatype PhpValue = IntValue(i: int) | StringValue(s: string) | OtherValue

  /** The hidden-column properties of a field as saved. `hiddenColumns` is
      `None` when the array property is missing or not an array; a missing
      CSV property is `""`. */
  datatype StoredField = StoredField(hiddenColumns: Option<seq<PhpValue>>, hiddenColumnsCsv: string, legacyCsv: string)

  /** `array_map('absint', array_map('trim', explode(',', $csv)))`. */
  function Absints(pieces: seq<string>): (r: seq<PhpValue>)
    ensures |r| == |pieces|
    ensures forall k :: 0 <= k < |r| ==> r[k] == IntValue(PhpAbsint(PhpTrim(pieces[k])))
  {
    if pieces == [] then []
    else Absints(pieces[..|pieces| - 1]) + [IntValue(PhpAbsint(PhpTrim(pieces[|pieces| - 1])))]
  }

  /** The values read from the storage the server picks: the array property
      whenever it is an array, even an empty one; else the CSV property when
      it is not PHP-`empty`; else the legacy CSV property when it is not. */
  function SourceValues(f: StoredField): seq<PhpValue> {
    if f.hiddenColumns.Some? then f.hiddenColumns.value
    else if !PhpEmpty(f.hiddenColumnsCsv) then Absints(Split(f.hiddenColumnsCsv, ','))
    else if !PhpEmpty(f.legacyCsv) then Absints(Split(f.legacyCsv, ','))
    else []
  }

  /** `array_filter($arr, 'is_int')`: the integers, in order. */
  function Ints(vs: seq<PhpValue>): (r: seq<int>)
    ensures forall x :: x in r <==> IntValue(x) in vs
  {
    if vs == [] then []
    else
      var init := vs[..|vs| - 1];
      var last := vs[|vs| - 1];
      assert vs == init + [last];
      Ints(init) + (if last.IntValue? then [last.i] else [])
  }

  /** `gfcse_get_hidden_columns`: the integers of the storage the server
      picks (see `SourceValues`), without repetition, ascending. */
  function GetHiddenColumns(f: StoredField): (r: seq<int>)
    ensures StrictlyAscending(r)
    ensures forall x :: x in r <==> IntValue(x) in SourceValues(f)
  {
    var ints := Ints(SourceValues(f));
    DistinctHasNoRepeats(ints);
    SortDistinct(Distinct(ints))
  }

  /** The array property wins whenever it is an array; its non-integer
      entries are dropped. */
  lemma ArrayFirst(f: StoredField)
    requires f.hiddenColumns.Some?
    ensures forall x :: x in GetHiddenColumns(f) <==> IntValue(x) in f.hiddenColumns.value
  {
  }

  /** What a CSV storage yields: `absint(trim(piece))` of each piece. */
  lemma AbsintsMembers(pieces: seq<string>)
    ensures forall x :: IntValue(x) in Absints(pieces) <==>
      exists k :: 0 <= k < |pieces| && x == PhpAbsint(PhpTrim(pieces[k]))
    ensures forall v :: v in Absints(pieces) ==> v.IntValue? && v.i >= 0
  {
    var r := Absints(pieces);
    forall x | exists k :: 0 <= k < |pieces| && x == PhpAbsint(PhpTrim(pieces[k]))
      ensures IntValue(x) in r
    {
      var k :| 0 <= k < |pieces| && x == PhpAbsint(PhpTrim(pieces[k]));
      assert r[k] == IntValue(x);
    }
  }

  /** Without the array, the CSV property and then the legacy one are read,
      each piece as `absint(trim(piece))`, so nothing negative comes out. */
  lemma CsvFallback(f: StoredField)
    requires f.hiddenColumns.None?
    ensures var csv := if !PhpEmpty(f.hiddenColumnsCsv) then f.hiddenColumnsCsv else f.legacyCsv;
      PhpEmpty(csv) ==> GetHiddenColumns(f) == []
    ensures var csv := if !PhpEmpty(f.hiddenColumnsCsv) then f.hiddenColumnsCsv else f.legacyCsv;
      !PhpEmpty(csv) ==> forall x :: x in GetHiddenColumns(f) <==>
        exists k :: 0 <= k < |Split(csv, ',')| && x == PhpAbsint(PhpTrim(Split(csv, ',')[k]))
    ensures forall x :: x in GetHiddenColumns(f) ==> x >= 0
  {
    var csv := if !PhpEmpty(f.hiddenColumnsCsv) then f.hiddenColumnsCsv else f.legacyCsv;
    var r := GetHiddenColumns(f);
    if PhpEmpty(csv) {
      assert SourceValues(f) == [];
      NoMembersEmpty(r);
    } else {
      assert SourceValues(f) == Absints(Split(csv, ','));
      AbsintsMembers(Split(csv, ','));
    }
  }

  // =====================================================================
  // csvToArray / arrayToCsv (form editor)
  // =====================================================================

  /** `parseInt($.trim(s), 10)` of each piece, keeping the integers. */
  function ParsedInts(pieces: seq<string>): seq<int> {
    if pieces == [] then []
    else
      var last := JsParseInt(JsTrim(pieces[|pieces| - 1]));
      ParsedInts(pieces[..|pieces| - 1]) + (if last.Some? then [last.value] else [])
  }

  /** A piece reads as the integer `x`. */
  predicate ReadsAs(pieces: seq<string>, x: int) {
    exists k :: 0 <= k < |pieces| && JsParseInt(JsTrim(pieces[k])) == Some(x)
  }

  lemma ReadsAsSnoc(init: seq<string>, last: string, x: int)
    ensures ReadsAs(init + [last], x) <==> ReadsAs(init, x) || JsParseInt(JsTrim(last)) == Some(x)
  {
    var pieces := init + [last];
    if ReadsAs(pieces, x) && !(JsParseInt(JsTrim(last)) == Some(x)) {
      var k :| 0 <= k < |pieces| && JsParseInt(JsTrim(pieces[k])) == Some(x);
      assert k < |init| && init[k] == pieces[k];
    }
    if ReadsAs(init, x) {
      var k :| 0 <= k < |init| && JsParseInt(JsTrim(init[k])) == Some(x);
      assert pieces[k] == init[k];
    }
    if JsParseInt(JsTrim(last)) == Some(x) {
      assert pieces[|init|] == last;
    }
  }

  /** The integers kept are exactly those some piece reads as. */
  lemma {:induction false} ParsedIntsMembers(pieces: seq<string>)
    ensures forall x :: x in ParsedInts(pieces) <==> ReadsAs(pieces, x)
  {
    if pieces != [] {
      var n := |pieces| - 1;
      var init := pieces[..n];
      var last := JsParseInt(JsTrim(pieces[n]));
      ParsedIntsMembers(init);
      assert pieces == init + [pieces[n]];
      assert ParsedInts(pieces) == ParsedInts(init) + (if last.Some? then [last.value] else []);
      forall x
        ensures x in ParsedInts(pieces) <==> ReadsAs(pieces, x)
      {
        ReadsAsSnoc(init, pieces[n], x);
      }
    }
  }

  /** `csvToArray`: a missing or empty text gives no columns. */
  function CsvToArray(csv: Option<string>): seq<int> {
    if csv.None? || csv.value == "" then [] else ParsedInts(Split(csv.value, ','))
  }

  /** A missing or empty text gives no columns; otherwise the columns are
      the integers the comma-separated pieces read as. */
  lemma CsvToArrayMembers(csv: Option<string>)
    ensures csv.None? || csv.value == "" ==> CsvToArray(csv) == []
    ensures csv.Some? && csv.value != "" ==>
      forall x :: x in CsvToArray(csv) <==> ReadsAs(Split(csv.value, ','), x)
  {
    if csv.Some? && csv.value != "" {
      ParsedIntsMembers(Split(csv.value, ','));
    }
  }

  /** The decimal renderings of the integers, in order. */
  function Rendered(xs: seq<int>): (r: seq<string>)
    ensures |r| == |xs|
    ensures forall k :: 0 <= k < |r| ==> r[k] == IntToString(xs[k])
  {
    if xs == [] then [] else Rendered(xs[..|xs| - 1]) + [IntToString(xs[|xs| - 1])]
  }

  /** `arrayToCsv`: a missing list gives `""`. */
  function ArrayToCsv(arr: Option<seq<int>>): string {
    if arr.None? then "" else Join(Rendered(arr.value), ',')
  }

  /** A rendered integer has nothing for a trim to drop. */
  lemma TrimRendered(i: int)
    ensures JsTrim(IntToString(i)) == IntToString(i)
    ensures PhpTrim(IntToString(i)) == IntToString(i)
  {
    var s := IntToString(i);
    var last := s[|s| - 1];
    if i < 0 {
      var d := NatToString(-i);
      assert s == ['-'] + d;
      assert last == d[|d| - 1];
    }
    assert IsDigit(last);
    assert s[0] == '-' || IsDigit(s[0]);
    TrimUnchanged(s, JsSpaces);
    TrimUnchanged(s, PhpTrimChars);
  }

  /** One piece more that reads as the integer `v`. */
  lemma ParsedIntsSnoc(pieces: seq<string>, x: string, v: int)
    requires JsParseInt(JsTrim(x)) == Some(v)
    ensures ParsedInts(pieces + [x]) == ParsedInts(pieces) + [v]
  {
    assert (pieces + [x])[..|pieces|] == pieces;
  }

  /** Pieces that each read as the integer at their position read as the
      whole list. */
  lemma {:induction false} ParsedAll(pieces: seq<string>, xs: seq<int>)
    requires |pieces| == |xs|
    requires forall k :: 0 <= k < |pieces| ==> JsParseInt(JsTrim(pieces[k])) == Some(xs[k])
    ensures ParsedInts(pieces) == xs
  {
    if pieces != [] {
      var n := |pieces| - 1;
      var init := pieces[..n];
      assert pieces == init + [pieces[n]];
      ParsedAll(init, xs[..n]);
      ParsedIntsSnoc(init, pieces[n], xs[n]);
      assert xs == xs[..n] + [xs[n]];
    }
  }

  lemma ParsedRendered(xs: seq<int>)
    ensures ParsedInts(Rendered(xs)) == xs
  {
    var pieces := Rendered(xs);
    forall k | 0 <= k < |pieces|
      ensures JsParseInt(JsTrim(pieces[k])) == Some(xs[k])
    {
      TrimRendered(xs[k]);
      JsParseIntOfIntToString(xs[k]);
    }
    ParsedAll(pieces, xs);
  }

  /** Splitting what `arrayToCsv` wrote gives the renderings back. */
  lemma CsvSplit(xs: seq<int>)
    requires xs != []
    ensures ArrayToCsv(Some(xs)) != ""
    ensures |Rendered(xs)| > 1 ==> ',' in ArrayToCsv(Some(xs))
    ensures |Rendered(xs)| == 1 ==> ArrayToCsv(Some(xs)) == IntToString(xs[0])
    ensures Split(ArrayToCsv(Some(xs)), ',') == Rendered(xs)
  {
    var parts := Rendered(xs);
    var csv := ArrayToCsv(Some(xs));
    assert parts[0] != [];
    if |parts| > 1 {
      assert csv == parts[0] + [','] + Join(parts[1..], ',');
      assert csv[|parts[0]|] == ',';
    }
    forall k | 0 <= k < |parts|
      ensures ',' !in parts[k]
    {
      IntToStringHasNoComma(xs[k]);
    }
    SplitJoin(parts, ',');
  }

  /** Reading back what `arrayToCsv` wrote gives the same columns. */
  lemma CsvRoundTrip(xs: seq<int>)
    ensures CsvToArray(Some(ArrayToCsv(Some(xs)))) == xs
  {
    if xs != [] {
      CsvSplit(xs);
      ParsedRendered(xs);
    }
  }

  /** Re-writing what was read changes nothing more: the CSV form is
      normalised after one pass. */
  lemma CsvNormalises(csv: Option<string>)
    ensures CsvToArray(Some(ArrayToCsv(Some(CsvToArray(csv))))) == CsvToArray(csv)
  {
    CsvRoundTrip(CsvToArray(csv));
  }

  // =====================================================================
  // detectColumnCount
  // =====================================================================

  /** What `detectColumnCount` reads of a field: the length of `inputs` when
      it is an array; the `value` of the first choice when that is a string
      (`None` for no choices, a null first choice or a non-string value);
      `gfcseColCount` when it is an integer number. */
  datatype EditorField = EditorField(inputs: Option<nat>, firstChoiceValue: Option<string>, colCount: Option<int>)

  function DetectColumnCount(f: EditorField): int {
    if f.inputs.Some? && f.inputs.value > 0 then f.inputs.value
    else if f.firstChoiceValue.Some? && f.firstChoiceValue.value != "" && '|' in f.firstChoiceValue.value then
      |Split(f.firstChoiceValue.value, '|')|
    else if f.colCount.Some? && f.colCount.value != 0 then f.colCount.value
    else 2
  }

  /** The count comes from the inputs, else from the levels of a
      `|`-separated first value, else from `gfcseColCount`, else it is 2. */
  lemma DetectColumnCountSources(f: EditorField)
    ensures var n := DetectColumnCount(f);
      && (f.inputs.Some? && f.inputs.value > 0 ==> n == f.inputs.value)
      && (!(f.inputs.Some? && f.inputs.value > 0) && f.firstChoiceValue.Some? && '|' in f.firstChoiceValue.value ==>
            n == Count(f.firstChoiceValue.value, '|') + 1 && n >= 2)
      && (!(f.inputs.Some? && f.inputs.value > 0) && !(f.firstChoiceValue.Some? && '|' in f.firstChoiceValue.value) ==>
            n == if f.colCount.Some? && f.colCount.value != 0 then f.colCount.value else 2)
  {
    if f.firstChoiceValue.Some? && '|' in f.firstChoiceValue.value {
      var v := f.firstChoiceValue.value;
      SplitCount(v, '|');
      CountPresent(v, '|');
    }
  }

  // =====================================================================
  // The toggle switches and the field settings loader (form editor)
  // =====================================================================

  /** JavaScript `a || b` on two optional strings. */
  function JsOr(a: Option<string>, b: Option<string>): Option<string> {
    if a.Some? && a.value != "" then a else b
  }

  lemma NoRepeatsSnoc(w: seq<int>, v: int)
    ensures NoRepeats(w) && v !in w ==> NoRepeats(w + [v])
  {
    if NoRepeats(w) && v !in w {
      var r := w + [v];
      forall i, j | 0 <= i < j < |r|
        ensures r[i] != r[j]
      {
        if j == |w| {
          assert r[i] == w[i];
        }
      }
    }
  }

  /** `xs` without `x` (`Set.prototype.delete`). */
  function Without(xs: seq<int>, x: int): (r: seq<int>)
    ensures forall y :: y in r <==> y in xs && y != x
    ensures NoRepeats(xs) ==> NoRepeats(r)
  {
    if xs == [] then []
    else
      var init := xs[..|xs| - 1];
      var last := xs[|xs| - 1];
      assert xs == init + [last];
      assert forall k :: 0 <= k < |init| ==> init[k] == xs[k];
      var w := Without(init, x);
      if last == x then w
      else
        assert NoRepeats(xs) ==> last !in w;
        NoRepeatsSnoc(w, last);
        w + [last]
  }

  /** The selection after switching column `col` on or off: the Set built
      from the old selection, with `col` added or removed, sorted. */
  function Toggled(selected: seq<int>, col: int, checked: bool): (r: seq<int>)
    ensures StrictlyAscending(r)
    ensures forall y :: y in r <==> if checked then y in selected || y == col else y in selected && y != col
  {
    var next := Distinct(selected);
    DistinctHasNoRepeats(selected);
    if checked then
      if col in next then SortDistinct(next) else SortDistinct(next + [col])
    else SortDistinct(Without(next, col))
  }

  /** Switching a column on and then off again leaves exactly the other
      selected columns, in order, whatever order the selection was in. */
  lemma ToggleOnOff(selected: seq<int>, col: int)
    ensures Toggled(Toggled(selected, col, true), col, false) == Toggled(selected, col, false)
  {
    AscendingUnique(Toggled(Toggled(selected, col, true), col, false), Toggled(selected, col, false));
  }

  /** A selection already in order, switched on a column it holds, is the
      same selection. */
  lemma ToggleOnHeld(selected: seq<int>, col: int)
    requires StrictlyAscending(selected) && col in selected
    ensures Toggled(selected, col, true) == selected
  {
    AscendingUnique(Toggled(selected, col, true), selected);
  }

  /** The hidden-column properties of the field open in the form editor,
      the hidden legacy input, and the selection the toggles hold. */
  class FieldEditor {
    var hiddenColumns: Option<seq<int>>
    var hiddenColumnsCsv: Option<string>
    var legacyCsv: Option<string>
    var inputValue: string
    var selected: seq<int>

    constructor(hiddenColumns: Option<seq<int>>, hiddenColumnsCsv: Option<string>, legacyCsv: Option<string>)
      ensures this.hiddenColumns == hiddenColumns
      ensures this.hiddenColumnsCsv == hiddenColumnsCsv && this.legacyCsv == legacyCsv
      ensures inputValue == "" && selected == []
    {
      this.hiddenColumns := hiddenColumns;
      this.hiddenColumnsCsv := hiddenColumnsCsv;
      this.legacyCsv := legacyCsv;
      inputValue := "";
      selected := [];
    }

    /** All three properties and the legacy input hold the selection. */
    predicate Synced()
      reads this
    {
      && hiddenColumns == Some(selected)
      && hiddenColumnsCsv == Some(ArrayToCsv(Some(selected)))
      && legacyCsv == hiddenColumnsCsv
      && inputValue == ArrayToCsv(Some(selected))
    }

    /** The `gform_load_field_settings` handler followed by the toggles'
        rendering: the columns come from a non-empty array property, else
        from the CSV or legacy CSV text; then every storage is rewritten
        from them. */
    method LoadFieldSettings()
      modifies this
      ensures selected == LoadedColumns(old(hiddenColumns), old(hiddenColumnsCsv), old(legacyCsv))
      ensures Synced()
    {
      var arr := if hiddenColumns.Some? then hiddenColumns.value else [];
      if |arr| == 0 {
        arr := CsvToArray(JsOr(hiddenColumnsCsv, legacyCsv));
      }
      var csv := ArrayToCsv(Some(arr));
      hiddenColumns := Some(arr);
      hiddenColumnsCsv := Some(csv);
      legacyCsv := Some(csv);
      inputValue := csv;
      selected := arr;
    }

    /** The change handler of the toggle for column `col`. */
    method ToggleColumn(col: int, checked: bool)
      modifies this
      ensures selected == Toggled(old(selected), col, checked)
      ensures Synced()
    {
      selected := Toggled(selected, col, checked);
      var csv := ArrayToCsv(Some(selected));
      hiddenColumns := Some(selected);
      hiddenColumnsCsv := Some(csv);
      legacyCsv := Some(csv);
      inputValue := csv;
    }
  }

  /** The columns the loader settles on. */
  function LoadedColumns(hiddenColumns: Option<seq<int>>, hiddenColumnsCsv: Option<string>, legacyCsv: Option<string>): seq<int> {
    if hiddenColumns.Some? && hiddenColumns.value != [] then hiddenColumns.value
    else CsvToArray(JsOr(hiddenColumnsCsv, legacyCsv))
  }

  /** Loading an already loaded field changes nothing: the storages are
      normalised after one load. */
  lemma LoadIdempotent(hiddenColumns: Option<seq<int>>, hiddenColumnsCsv: Option<string>, legacyCsv: Option<string>)
    ensures var arr := LoadedColumns(hiddenColumns, hiddenColumnsCsv, legacyCsv);
      var csv := Some(ArrayToCsv(Some(arr)));
      LoadedColumns(Some(arr), csv, csv) == arr
  {
    var arr := LoadedColumns(hiddenColumns, hiddenColumnsCsv, legacyCsv);
    CsvRoundTrip(arr);
  }

  /** In a synced field both CSV properties and the hidden input read back
      as the array property and as the selection. */
  lemma SyncedStoragesAgree(e: FieldEditor)
    requires e.Synced()
    ensures CsvToArray(e.hiddenColumnsCsv) == e.hiddenColumns.value == e.selected
    ensures CsvToArray(e.legacyCsv) == e.selected
    ensures CsvToArray(Some(e.inputValue)) == e.selected
  {
    CsvRoundTrip(e.selected);
  }

  /** The integers as the array property stores them. */
  function AsPhpArray(xs: seq<int>): (r: seq<PhpValue>)
    ensures |r| == |xs|
    ensures forall k :: 0 <= k < |r| ==> r[k] == IntValue(xs[k])
  {
    if xs == [] then [] else AsPhpArray(xs[..|xs| - 1]) + [IntValue(xs[|xs| - 1])]
  }

  /** What the toggles save (column numbers from 1) is what the server
      reads back from the array property. */
  lemma ServerReadsArray(selected: seq<int>, csv: string)
    requires StrictlyAscending(selected)
    ensures GetHiddenColumns(StoredField(Some(AsPhpArray(selected)), csv, csv)) == selected
  {
    var arr := AsPhpArray(selected);
    forall x
      ensures IntValue(x) in arr <==> x in selected
    {
      if x in selected {
        var k :| 0 <= k < |selected| && selected[k] == x;
        assert arr[k] == IntValue(x);
      }
    }
    AscendingUnique(GetHiddenColumns(StoredField(Some(arr), csv, csv)), selected);
  }

  /** What the toggles save (column numbers from 1) is what the server
      reads back: from the array property, and from the CSV property alone
      as well once the array is lost. */
  lemma ServerReadsToggles(selected: seq<int>)
    requires StrictlyAscending(selected)
    requires forall k :: 0 <= k < |selected| ==> selected[k] >= 1
    ensures var csv := ArrayToCsv(Some(selected));
      GetHiddenColumns(StoredField(Some(AsPhpArray(selected)), csv, csv)) == selected
    ensures var csv := ArrayToCsv(Some(selected));
      GetHiddenColumns(StoredField(None, csv, csv)) == selected
  {
    var csv := ArrayToCsv(Some(selected));
    ServerReadsArray(selected, csv);
    CsvSourceValues(selected);
    AscendingUnique(GetHiddenColumns(StoredField(None, csv, csv)), selected);
  }

  /** The CSV the editor writes for columns numbered from 1 reads, on the
      server, as those columns. */
  lemma CsvSourceValues(selected: seq<int>)
    requires forall k :: 0 <= k < |selected| ==> selected[k] >= 1
    ensures var csv := ArrayToCsv(Some(selected));
      forall x :: IntValue(x) in SourceValues(StoredField(None, csv, csv)) <==> x in selected
  {
    var csv := ArrayToCsv(Some(selected));
    if selected != [] {
      var parts := Rendered(selected);
      CsvSplit(selected);
      assert !PhpEmpty(csv) by {
        assert NatToString(0) == "0";
        PhpIntvalOfNatToString(0);
        PhpIntvalOfNatToString(selected[0]);
        assert parts[0] != "0";
      }
      AbsintsMembers(parts);
      forall k | 0 <= k < |parts|
        ensures PhpAbsint(PhpTrim(parts[k])) == selected[k]
      {
        TrimRendered(selected[k]);
        PhpIntvalOfNatToString(selected[k]);
      }
    }
  }
}
