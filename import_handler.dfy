/** The import of spreadsheet rows into a chained select field: one input per
    header cell, and a tree of choices with one level per column, guarded by
    a limit on the distinct values a column may hold. */
module ImportHandler {
  import opened Runtime
  import opened Choices
  import XlsxParser

  // =====================================================================
  // The tree while it is built: a PHP array keyed by the cleaned cell
  // text, each key holding a choice whose `choices` is again such an array.
  // =====================================================================

  datatype Entry = Entry(text: string, value: string, isSelected: bool, choices: seq<Slot>)

  /** One key of a keyed level together with the choice stored under it. */
  datatype Slot = Slot(key: string, entry: Entry)

  /** The choice a new key receives: text and value are the key, unselected,
      with no children yet. */
  function NewEntry(item: string): Entry {
    Entry(item, item, false, [])
  }

  /** The keys of one level, in insertion order. */
  function Keys(t: seq<Slot>): (ks: seq<string>)
    ensures |ks| == |t|
    ensures forall i :: 0 <= i < |t| ==> ks[i] == t[i].key
  {
    seq(|t|, i requires 0 <= i < |t| => t[i].key)
  }

  /** Where key `k` sits in a level (`isset($level[$k])` when it is some). */
  function KeyIndex(t: seq<Slot>, k: string): (r: Option<nat>)
    ensures r.Some? ==> r.value < |t| && t[r.value].key == k
    ensures r.Some? ==> forall j :: 0 <= j < r.value ==> t[j].key != k
    ensures r.None? ==> forall j :: 0 <= j < |t| ==> t[j].key != k
  {
    if t == [] then None
    else if t[0].key == k then Some(0)
    else match KeyIndex(t[1..], k)
      case None => None
      case Some(i) => Some(i + 1)
  }

  /** A key is missing from a level exactly when it is not among its keys. */
  lemma KeyIndexNone(t: seq<Slot>, k: string)
    ensures KeyIndex(t, k).None? <==> k !in Keys(t)
  {
    if KeyIndex(t, k).Some? {
      assert Keys(t)[KeyIndex(t, k).value] == k;
    }
  }

  /** The level reached by following the keys of `path` from `t`, if every
      key is there. */
  function TableAt(t: seq<Slot>, path: seq<string>): Option<seq<Slot>>
    decreases |path|
  {
    if path == [] then Some(t)
    else match KeyIndex(t, path[0])
      case None => None
      case Some(i) => TableAt(t[i].entry.choices, path[1..])
  }

  /** The keys directly below `path`; none when `path` is not in the tree. */
  function ChildKeys(t: seq<Slot>, path: seq<string>): seq<string> {
    match TableAt(t, path)
    case None => []
    case Some(level) => Keys(level)
  }

  /** The tree after one row's walk along `path`: each key is looked up at
      the level the previous key led to and created there when missing. */
  function Insert(t: seq<Slot>, path: seq<string>): seq<Slot>
    decreases |path|
  {
    if path == [] then t
    else match KeyIndex(t, path[0])
      case Some(i) =>
        t[i := Slot(t[i].key, t[i].entry.(choices := Insert(t[i].entry.choices, path[1..])))]
      case None =>
        t + [Slot(path[0], NewEntry(path[0]).(choices := Insert([], path[1..])))]
  }

  /** The tree with `s` appended to the level at `path`
      (`$parent[$item] = array(...)` through the reference `$parent`). */
  function AppendAt(t: seq<Slot>, path: seq<string>, s: Slot): seq<Slot>
    requires TableAt(t, path).Some?
    decreases |path|
  {
    if path == [] then t + [s]
    else
      var i := KeyIndex(t, path[0]).value;
      t[i := Slot(t[i].key, t[i].entry.(choices := AppendAt(t[i].entry.choices, path[1..], s)))]
  }

  lemma {:induction false} KeyIndexUpdate(t: seq<Slot>, i: nat, s: Slot, k: string)
    requires i < |t| && s.key == t[i].key
    ensures KeyIndex(t[i := s], k) == KeyIndex(t, k)
  {
    if t[0].key != k && i > 0 {
      assert t[i := s][1..] == t[1..][i - 1 := s];
      KeyIndexUpdate(t[1..], i - 1, s, k);
    } else if t[0].key != k {
      assert t[i := s][1..] == t[1..];
    }
  }

  lemma {:induction false} KeyIndexAppend(t: seq<Slot>, s: Slot, k: string)
    ensures KeyIndex(t + [s], k) ==
      if KeyIndex(t, k).Some? then KeyIndex(t, k) else if s.key == k then Some(|t|) else None
  {
    var u := t + [s];
    if t == [] {
      assert u == [s];
    } else {
      assert u[0] == t[0];
      if t[0].key != k {
        assert u[1..] == t[1..] + [s];
        KeyIndexAppend(t[1..], s, k);
      }
    }
  }

  /** One step of a row's walk: the walk along `p` leaves a level at `p`,
      and extending the walk by `k` either finds `k` there or appends a new
      choice for it — the loop body of the import. */
  lemma {:induction false} InsertStep(t: seq<Slot>, p: seq<string>, k: string)
    ensures TableAt(Insert(t, p), p).Some?
    ensures Insert(t, p + [k]) ==
      if KeyIndex(TableAt(Insert(t, p), p).value, k).Some? then Insert(t, p)
      else AppendAt(Insert(t, p), p, Slot(k, NewEntry(k)))
    decreases |p|, 1
  {
    if p == [] {
      assert p + [k] == [k] && [k][1..] == [];
      match KeyIndex(t, k)
      case Some(i) =>
        assert t[i].entry.(choices := t[i].entry.choices) == t[i].entry;
        assert t[i := Slot(t[i].key, t[i].entry)] == t;
      case None =>
    } else if KeyIndex(t, p[0]).Some? {
      InsertStepFound(t, p, k);
    } else {
      InsertStepNew(t, p, k);
    }
  }

  /** `InsertStep` where the first key of `p` is already on the level. */
  lemma {:induction false} InsertStepFound(t: seq<Slot>, p: seq<string>, k: string)
    requires p != [] && KeyIndex(t, p[0]).Some?
    ensures TableAt(Insert(t, p), p).Some?
    ensures Insert(t, p + [k]) ==
      if KeyIndex(TableAt(Insert(t, p), p).value, k).Some? then Insert(t, p)
      else AppendAt(Insert(t, p), p, Slot(k, NewEntry(k)))
    decreases |p|, 0
  {
    var a, q := p[0], p[1..];
    assert (p + [k])[0] == a && (p + [k])[1..] == q + [k];
    var u := Insert(t, p);
    var i := KeyIndex(t, a).value;
    var e := t[i].entry;
    InsertStep(e.choices, q, k);
    KeyIndexUpdate(t, i, u[i], a);
    assert TableAt(u, p) == TableAt(Insert(e.choices, q), q);
  }

  /** `InsertStep` where the first key of `p` is new on the level. */
  lemma {:induction false} InsertStepNew(t: seq<Slot>, p: seq<string>, k: string)
    requires p != [] && KeyIndex(t, p[0]).None?
    ensures TableAt(Insert(t, p), p).Some?
    ensures Insert(t, p + [k]) ==
      if KeyIndex(TableAt(Insert(t, p), p).value, k).Some? then Insert(t, p)
      else AppendAt(Insert(t, p), p, Slot(k, NewEntry(k)))
    decreases |p|, 0
  {
    var a, q := p[0], p[1..];
    assert (p + [k])[0] == a && (p + [k])[1..] == q + [k];
    var u := Insert(t, p);
    KeyIndexAppend(t, u[|t|], a);
    InsertStep([], q, k);
    assert TableAt(u, p) == TableAt(Insert([], q), q);
  }

  /** The keys a row walks through: its non-empty cells, trimmed and then
      cleaned by `sanitize`, in column order. */
  function RowPath(row: seq<string>, sanitize: string -> string): seq<string> {
    if row == [] then []
    else
      RowPath(row[..|row| - 1], sanitize)
      + (if row[|row| - 1] == "" then [] else [sanitize(PhpTrim(row[|row| - 1]))])
  }

  /** A row with no non-empty cell (`array_filter($row, 'strlen')` is empty). */
  predicate IsBlank(row: seq<string>) {
    forall j :: 0 <= j < |row| ==> row[j] == ""
  }

  /** The walk of one row, applied to a tree; blank rows are skipped. */
  method InsertRow(tree: seq<Slot>, row: seq<string>, sanitize: string -> string) returns (result: seq<Slot>)
    ensures result == Insert(tree, RowPath(row, sanitize))
  {
    result := tree;
    // the keys walked so far: where the reference `$parent` points
    var path: seq<string> := [];
    for j := 0 to |row|
      invariant path == RowPath(row[..j], sanitize)
      invariant result == Insert(tree, path)
    {
      assert row[..j + 1][..j] == row[..j];
      var item := row[j];
      if item == "" {
        continue;
      }
      item := sanitize(PhpTrim(item));
      InsertStep(tree, path, item);
      var level := TableAt(result, path).value;
      if KeyIndex(level, item).None? {
        result := AppendAt(result, path, Slot(item, NewEntry(item)));
      }
      path := path + [item];
    }
    assert row[..|row|] == row;
  }

  /** The walk of one row, unless the row is blank. */
  function AddRow(t: seq<Slot>, row: seq<string>, sanitize: string -> string): seq<Slot> {
    if IsBlank(row) then t else Insert(t, RowPath(row, sanitize))
  }

  /** The keyed tree built from the data rows, one row after the other. */
  function BuildTree(rows: seq<seq<string>>, sanitize: string -> string): seq<Slot> {
    if rows == [] then []
    else AddRow(BuildTree(rows[..|rows| - 1], sanitize), rows[|rows| - 1], sanitize)
  }

  /** The tree-building loop over the data rows (every row after the header). */
  method BuildChoiceTree(rows: seq<seq<string>>, sanitize: string -> string) returns (tree: seq<Slot>)
    requires |rows| >= 1
    ensures tree == BuildTree(rows[1..], sanitize)
  {
    tree := [];
    for rowIndex := 1 to |rows|
      invariant tree == BuildTree(rows[1..rowIndex], sanitize)
    {
      assert rows[1..rowIndex + 1][..rowIndex - 1] == rows[1..rowIndex];
      var row := rows[rowIndex];
      if IsBlank(row) {
        continue;
      }
      tree := InsertRow(tree, row, sanitize);
    }
    assert rows[1..|rows|] == rows[1..];
  }

  // ---------------------------------------------------------------------
  // What the tree holds, stated against the rows alone
  // ---------------------------------------------------------------------

  predicate IsStrictPrefix(p: seq<string>, q: seq<string>) {
    |p| < |q| && p == q[..|p|]
  }

  function AddIfAbsent(xs: seq<string>, x: string): seq<string> {
    if x in xs then xs else xs + [x]
  }

  /** The key paths of the rows, one per row (empty for a blank row). */
  function RowPaths(rows: seq<seq<string>>, sanitize: string -> string): (ps: seq<seq<string>>)
    ensures |ps| == |rows|
    ensures forall r :: 0 <= r < |rows| ==> ps[r] == RowPath(rows[r], sanitize)
  {
    seq(|rows|, r requires 0 <= r < |rows| => RowPath(rows[r], sanitize))
  }

  /** The key that follows `p` in each path that extends `p`, in row order,
      repetitions included. */
  function NextKeys(paths: seq<seq<string>>, p: seq<string>): seq<string> {
    if paths == [] then []
    else
      var q := paths[|paths| - 1];
      NextKeys(paths[..|paths| - 1], p) + (if IsStrictPrefix(p, q) then [q[|p|]] else [])
  }

  lemma {:induction false} InNextKeys(paths: seq<seq<string>>, p: seq<string>, k: string)
    ensures k in NextKeys(paths, p) <==>
      exists r :: 0 <= r < |paths| && IsStrictPrefix(p, paths[r]) && paths[r][|p|] == k
  {
    if paths != [] {
      var init := paths[..|paths| - 1];
      InNextKeys(init, p, k);
      if k in NextKeys(init, p) {
        var r :| 0 <= r < |init| && IsStrictPrefix(p, init[r]) && init[r][|p|] == k;
        assert paths[r] == init[r];
      }
      if exists r :: 0 <= r < |paths| && IsStrictPrefix(p, paths[r]) && paths[r][|p|] == k {
        var r :| 0 <= r < |paths| && IsStrictPrefix(p, paths[r]) && paths[r][|p|] == k;
        if r < |init| {
          assert init[r] == paths[r];
        }
      }
    }
  }

  /** A row is blank exactly when its walk is empty. */
  lemma {:induction false} RowPathEmpty(row: seq<string>, sanitize: string -> string)
    ensures RowPath(row, sanitize) == [] <==> IsBlank(row)
  {
    if row != [] {
      var init := row[..|row| - 1];
      RowPathEmpty(init, sanitize);
      if IsBlank(row) {
        assert IsBlank(init);
      } else if IsBlank(init) {
        assert row[|row| - 1] != "";
      }
    }
  }

  lemma {:induction false} KeysInsert(t: seq<Slot>, q: seq<string>)
    requires q != []
    ensures Keys(Insert(t, q)) == AddIfAbsent(Keys(t), q[0])
  {
    match KeyIndex(t, q[0])
    case Some(i) =>
      assert Keys(Insert(t, q)) == Keys(t);
    case None =>
      assert Keys(Insert(t, q)) == Keys(t) + [q[0]];
  }

  lemma ChildKeysDescend(t: seq<Slot>, p: seq<string>)
    requires p != []
    ensures ChildKeys(t, p) ==
      match KeyIndex(t, p[0])
      case None => []
      case Some(i) => ChildKeys(t[i].entry.choices, p[1..])
  {
  }

  lemma StrictPrefixCons(p: seq<string>, q: seq<string>)
    requires p != [] && q != []
    ensures IsStrictPrefix(p, q) <==> p[0] == q[0] && IsStrictPrefix(p[1..], q[1..])
    ensures IsStrictPrefix(p, q) ==> q[|p|] == q[1..][|p| - 1]
  {
    if p[0] == q[0] && IsStrictPrefix(p[1..], q[1..]) {
      assert p == [p[0]] + p[1..] && q[..|p|] == [q[0]] + q[1..][..|p| - 1];
    }
    if IsStrictPrefix(p, q) {
      assert p[1..] == q[..|p|][1..];
    }
  }

  /** One row's walk adds the next key of its path below every proper prefix
      of the path, when that key is new there, and changes no other level. */
  lemma {:induction false} ChildKeysInsert(t: seq<Slot>, q: seq<string>, p: seq<string>)
    ensures ChildKeys(Insert(t, q), p) ==
      if IsStrictPrefix(p, q) then AddIfAbsent(ChildKeys(t, p), q[|p|]) else ChildKeys(t, p)
    decreases |q|
  {
    if q == [] {
    } else if p == [] {
      KeysInsert(t, q);
    } else {
      StrictPrefixCons(p, q);
      var u := Insert(t, q);
      ChildKeysDescend(u, p);
      ChildKeysDescend(t, p);
      match KeyIndex(t, q[0])
      case Some(i) =>
        ChildKeysInsertFound(t, q, p, i);
      case None =>
        ChildKeysInsertNew(t, q, p);
    }
  }

  lemma {:induction false} ChildKeysInsertFound(t: seq<Slot>, q: seq<string>, p: seq<string>, i: nat)
    requires q != [] && p != [] && KeyIndex(t, q[0]) == Some(i)
    ensures ChildKeys(Insert(t, q), p) ==
      if IsStrictPrefix(p, q) then AddIfAbsent(ChildKeys(t, p), q[|p|]) else ChildKeys(t, p)
    decreases |q|, 1
  {
    if p[0] == q[0] {
      ChildKeysInsertBelow(t, q, p, i);
    } else {
      StrictPrefixCons(p, q);
      var u := Insert(t, q);
      assert u == t[i := Slot(t[i].key, t[i].entry.(choices := Insert(t[i].entry.choices, q[1..])))];
      ChildKeysDescend(u, p);
      ChildKeysDescend(t, p);
      KeyIndexUpdate(t, i, u[i], p[0]);
      match KeyIndex(t, p[0])
      case None =>
      case Some(j) =>
        assert j != i && u[j] == t[j];
    }
  }

  /** `ChildKeysInsertFound` where `p` goes down through the slot the walk updates. */
  lemma {:induction false} ChildKeysInsertBelow(t: seq<Slot>, q: seq<string>, p: seq<string>, i: nat)
    requires q != [] && p != [] && KeyIndex(t, q[0]) == Some(i) && p[0] == q[0]
    ensures ChildKeys(Insert(t, q), p) ==
      if IsStrictPrefix(p, q) then AddIfAbsent(ChildKeys(t, p), q[|p|]) else ChildKeys(t, p)
    decreases |q|, 0
  {
    StrictPrefixCons(p, q);
    var u := Insert(t, q);
    var ch := t[i].entry.choices;
    assert u == t[i := Slot(t[i].key, t[i].entry.(choices := Insert(ch, q[1..])))];
    KeyIndexUpdate(t, i, u[i], p[0]);
    assert ChildKeys(u, p) == ChildKeys(Insert(ch, q[1..]), p[1..]) by {
      ChildKeysDescend(u, p);
    }
    assert ChildKeys(t, p) == ChildKeys(ch, p[1..]) by {
      ChildKeysDescend(t, p);
    }
    ChildKeysInsert(ch, q[1..], p[1..]);
  }

  lemma {:induction false} ChildKeysInsertNew(t: seq<Slot>, q: seq<string>, p: seq<string>)
    requires q != [] && p != [] && KeyIndex(t, q[0]).None?
    ensures ChildKeys(Insert(t, q), p) ==
      if IsStrictPrefix(p, q) then AddIfAbsent(ChildKeys(t, p), q[|p|]) else ChildKeys(t, p)
    decreases |q|, 0
  {
    StrictPrefixCons(p, q);
    var u := Insert(t, q);
    assert u == t + [Slot(q[0], NewEntry(q[0]).(choices := Insert([], q[1..])))];
    ChildKeysDescend(u, p);
    ChildKeysDescend(t, p);
    KeyIndexAppend(t, u[|t|], p[0]);
    if p[0] == q[0] {
      ChildKeysInsert([], q[1..], p[1..]);
      assert ChildKeys([], p[1..]) == [];
    } else {
      match KeyIndex(t, p[0])
      case None =>
      case Some(j) =>
        assert u[j] == t[j];
    }
  }

  /** The children of every node are the keys that follow its path in the
      rows, each once, in the order of the row that first brought it. */
  lemma {:induction false} ChildKeysBuild(rows: seq<seq<string>>, sanitize: string -> string, p: seq<string>)
    ensures ChildKeys(BuildTree(rows, sanitize), p) == Distinct(NextKeys(RowPaths(rows, sanitize), p))
  {
    if rows == [] {
      assert ChildKeys([], p) == [];
    } else {
      var init, last := rows[..|rows| - 1], rows[|rows| - 1];
      ChildKeysBuild(init, sanitize, p);
      var paths := RowPaths(rows, sanitize);
      assert paths[..|paths| - 1] == RowPaths(init, sanitize);
      RowPathEmpty(last, sanitize);
      var q := RowPath(last, sanitize);
      ChildKeysInsert(BuildTree(init, sanitize), q, p);
      var xs := NextKeys(RowPaths(init, sanitize), p);
      if IsStrictPrefix(p, q) {
        assert NextKeys(paths, p) == xs + [q[|p|]];
        assert (xs + [q[|p|]])[..|xs|] == xs;
      } else {
        assert NextKeys(paths, p) == xs;
      }
    }
  }

  lemma {:induction false} TableAtSnoc(t: seq<Slot>, p: seq<string>, k: string)
    ensures TableAt(t, p + [k]).Some? <==> TableAt(t, p).Some? && k in Keys(TableAt(t, p).value)
    decreases |p|
  {
    if p == [] {
      assert [k][1..] == [];
      assert p + [k] == [k];
    } else {
      assert (p + [k])[0] == p[0] && (p + [k])[1..] == p[1..] + [k];
      match KeyIndex(t, p[0])
      case None =>
      case Some(i) =>
        TableAtSnoc(t[i].entry.choices, p[1..], k);
    }
  }

  /** Some row's walk passes through `p`. */
  predicate Walked(paths: seq<seq<string>>, p: seq<string>) {
    exists r :: 0 <= r < |paths| && p <= paths[r]
  }

  /** `p + [k]` is walked exactly when `k` follows `p` in some walk. */
  lemma WalkedSnoc(paths: seq<seq<string>>, p: seq<string>, k: string)
    ensures Walked(paths, p + [k]) <==>
      exists r :: 0 <= r < |paths| && IsStrictPrefix(p, paths[r]) && paths[r][|p|] == k
  {
    if Walked(paths, p + [k]) {
      var r :| 0 <= r < |paths| && p + [k] <= paths[r];
      assert IsStrictPrefix(p, paths[r]) && paths[r][|p|] == k;
    }
    if exists r :: 0 <= r < |paths| && IsStrictPrefix(p, paths[r]) && paths[r][|p|] == k {
      var r :| 0 <= r < |paths| && IsStrictPrefix(p, paths[r]) && paths[r][|p|] == k;
      assert p + [k] == paths[r][..|p| + 1];
    }
  }

  lemma {:induction false} WalkedPrefix(paths: seq<seq<string>>, p: seq<string>, k: string)
    requires Walked(paths, p + [k])
    ensures Walked(paths, p)
  {
    var r :| 0 <= r < |paths| && p + [k] <= paths[r];
    assert p == paths[r][..|p|];
  }

  lemma DistinctMembers(xs: seq<string>, x: string)
    ensures x in Distinct(xs) <==> x in xs
  {
    if x in xs {
      var i :| 0 <= i < |xs| && xs[i] == x;
    }
    if x in Distinct(xs) {
      var i :| 0 <= i < |Distinct(xs)| && Distinct(xs)[i] == x;
    }
  }

  /** `k` is a child of `p` in the tree exactly when `k` follows `p` in some
      row's walk. */
  lemma ChildOfBuild(rows: seq<seq<string>>, sanitize: string -> string, p: seq<string>, k: string)
    ensures k in ChildKeys(BuildTree(rows, sanitize), p) <==> Walked(RowPaths(rows, sanitize), p + [k])
  {
    var paths := RowPaths(rows, sanitize);
    ChildKeysBuild(rows, sanitize, p);
    DistinctMembers(NextKeys(paths, p), k);
    InNextKeys(paths, p, k);
    WalkedSnoc(paths, p, k);
  }

  /** The paths of the tree are exactly the prefixes of the rows' walks. */
  lemma {:induction false} PathsOfBuild(rows: seq<seq<string>>, sanitize: string -> string, p: seq<string>)
    ensures TableAt(BuildTree(rows, sanitize), p).Some? <==> p == [] || Walked(RowPaths(rows, sanitize), p)
    decreases |p|
  {
    if p != [] {
      var t := BuildTree(rows, sanitize);
      var paths := RowPaths(rows, sanitize);
      var p0, k := p[..|p| - 1], p[|p| - 1];
      assert p == p0 + [k];
      PathsOfBuild(rows, sanitize, p0);
      TableAtSnoc(t, p0, k);
      ChildOfBuild(rows, sanitize, p0, k);
      if Walked(paths, p) {
        WalkedPrefix(paths, p0, k);
        if p0 != [] {
          assert TableAt(t, p0).Some?;
        }
      }
    }
  }

  /** Every leaf of the tree is the complete walk of some row. */
  lemma {:induction false} LeavesAreRows(rows: seq<seq<string>>, sanitize: string -> string, p: seq<string>)
    requires p != [] && TableAt(BuildTree(rows, sanitize), p) == Some([])
    ensures exists r :: 0 <= r < |rows| && RowPath(rows[r], sanitize) == p
  {
    var paths := RowPaths(rows, sanitize);
    PathsOfBuild(rows, sanitize, p);
    var r :| 0 <= r < |paths| && p <= paths[r];
    NothingBelowLeaf(rows, sanitize, p, r);
    assert RowPath(rows[r], sanitize) == paths[r];
  }

  lemma NothingBelowLeaf(rows: seq<seq<string>>, sanitize: string -> string, p: seq<string>, r: nat)
    requires TableAt(BuildTree(rows, sanitize), p) == Some([])
    requires r < |rows| && p <= RowPath(rows[r], sanitize)
    ensures RowPath(rows[r], sanitize) == p
  {
    var q := RowPath(rows[r], sanitize);
    if |q| > |p| {
      var k := q[|p|];
      assert p + [k] == q[..|p| + 1];
      assert Walked(RowPaths(rows, sanitize), p + [k]);
      ChildOfBuild(rows, sanitize, p, k);
      assert false;
    }
  }

  // ---------------------------------------------------------------------
  // Shape of the tree
  // ---------------------------------------------------------------------

  /** Keys are unique on each level, and every choice is unselected with
      text and value equal to its key. */
  predicate WellFormed(t: seq<Slot>)
    decreases t
  {
    && (forall i, j :: 0 <= i < j < |t| ==> t[i].key != t[j].key)
    && forall i :: 0 <= i < |t| ==>
        && t[i].entry.text == t[i].key
        && t[i].entry.value == t[i].key
        && !t[i].entry.isSelected
        && WellFormed(t[i].entry.choices)
  }

  lemma {:induction false} InsertWellFormed(t: seq<Slot>, q: seq<string>)
    requires WellFormed(t)
    ensures WellFormed(Insert(t, q))
    decreases |q|, 1
  {
    if q != [] {
      match KeyIndex(t, q[0])
      case Some(i) => InsertWellFormedFound(t, q, i);
      case None => InsertWellFormedNew(t, q);
    }
  }

  lemma {:induction false} InsertWellFormedFound(t: seq<Slot>, q: seq<string>, i: nat)
    requires WellFormed(t) && q != [] && KeyIndex(t, q[0]) == Some(i)
    ensures WellFormed(Insert(t, q))
    decreases |q|, 0
  {
    var u := Insert(t, q);
    InsertWellFormed(t[i].entry.choices, q[1..]);
    assert forall j :: 0 <= j < |u| ==> u[j].key == t[j].key;
    assert forall j :: 0 <= j < |u| && j != i ==> u[j] == t[j];
  }

  lemma {:induction false} InsertWellFormedNew(t: seq<Slot>, q: seq<string>)
    requires WellFormed(t) && q != [] && KeyIndex(t, q[0]) == None
    ensures WellFormed(Insert(t, q))
    decreases |q|, 0
  {
    var u := Insert(t, q);
    InsertWellFormed([], q[1..]);
    assert forall j :: 0 <= j < |t| ==> u[j] == t[j];
    assert u[|t|].key == q[0];
  }

  lemma {:induction false} BuildWellFormed(rows: seq<seq<string>>, sanitize: string -> string)
    ensures WellFormed(BuildTree(rows, sanitize))
  {
    if rows != [] {
      BuildWellFormed(rows[..|rows| - 1], sanitize);
      InsertWellFormed(BuildTree(rows[..|rows| - 1], sanitize), RowPath(rows[|rows| - 1], sanitize));
    }
  }

  // =====================================================================
  // array_values_recursive: the keyed tree as nested lists
  // =====================================================================

  /** Each level of the keyed tree as a list, in key order. */
  function Values(t: seq<Slot>): seq<Choice>
    decreases t
  {
    if t == [] then [] else Values(t[..|t| - 1]) + [ToChoice(t[|t| - 1].entry)]
  }

  function ToChoice(e: Entry): Choice
    decreases e
  {
    Choice(e.text, e.value, e.isSelected, Values(e.choices))
  }

  /** Each level of a list of choices keyed by the choices' values. */
  function Rekey(cs: seq<Choice>): seq<Slot>
    decreases cs
  {
    if cs == [] then []
    else
      var c := cs[|cs| - 1];
      Rekey(cs[..|cs| - 1]) + [Slot(c.value, Entry(c.text, c.value, c.isSelected, Rekey(c.choices)))]
  }

  /** Every key is its choice's value. */
  predicate KeyedByValue(t: seq<Slot>)
    decreases t
  {
    forall i :: 0 <= i < |t| ==> t[i].key == t[i].entry.value && KeyedByValue(t[i].entry.choices)
  }

  /** Turning the levels into lists loses nothing: keying every level by
      value again gives back the keyed tree. */
  lemma {:induction false} RekeyValues(t: seq<Slot>)
    requires KeyedByValue(t)
    ensures Rekey(Values(t)) == t
    decreases t
  {
    if t != [] {
      var init, last := t[..|t| - 1], t[|t| - 1];
      KeyedByValueSplit(t);
      RekeyValues(init);
      RekeyValues(last.entry.choices);
      RekeyValuesStep(t);
    }
  }

  /** The step of `RekeyValues`: the last slot is rebuilt from its choice. */
  lemma RekeyValuesStep(t: seq<Slot>)
    requires t != []
    requires Rekey(Values(t[..|t| - 1])) == t[..|t| - 1]
    requires Rekey(Values(t[|t| - 1].entry.choices)) == t[|t| - 1].entry.choices
    requires t[|t| - 1].key == t[|t| - 1].entry.value
    ensures Rekey(Values(t)) == t
  {
    var init, last := t[..|t| - 1], t[|t| - 1];
    var c := ToChoice(last.entry);
    RekeySnoc(Values(init), c);
    assert Values(t) == Values(init) + [c];
    assert Entry(c.text, c.value, c.isSelected, Rekey(c.choices)) == last.entry;
    assert init + [last] == t;
  }

  /** The parts of a level keyed by value are keyed by value. */
  lemma KeyedByValueSplit(t: seq<Slot>)
    requires KeyedByValue(t) && t != []
    ensures KeyedByValue(t[..|t| - 1])
    ensures KeyedByValue(t[|t| - 1].entry.choices) && t[|t| - 1].key == t[|t| - 1].entry.value
  {
    var init := t[..|t| - 1];
    assert forall i :: 0 <= i < |init| ==> init[i] == t[i];
  }

  lemma RekeySnoc(cs: seq<Choice>, c: Choice)
    ensures Rekey(cs + [c]) == Rekey(cs) + [Slot(c.value, Entry(c.text, c.value, c.isSelected, Rekey(c.choices)))]
  {
    assert (cs + [c])[..|cs|] == cs;
  }

  lemma {:induction false} WellFormedKeyedByValue(t: seq<Slot>)
    requires WellFormed(t)
    ensures KeyedByValue(t)
    decreases t
  {
    forall i | 0 <= i < |t|
      ensures KeyedByValue(t[i].entry.choices)
    {
      WellFormedKeyedByValue(t[i].entry.choices);
    }
  }

  /** `array_values_recursive`: every level becomes a list; an empty level
      is left as it is. */
  method ArrayValuesRecursive(t: seq<Slot>) returns (cs: seq<Choice>)
    ensures cs == Values(t)
    decreases t
  {
    cs := [];
    for i := 0 to |t|
      invariant cs == Values(t[..i])
    {
      assert t[..i + 1][..i] == t[..i];
      var e := t[i].entry;
      var children: seq<Choice> := [];
      if e.choices != [] {
        children := ArrayValuesRecursive(e.choices);
      }
      cs := cs + [Choice(e.text, e.value, e.isSelected, children)];
    }
    assert t[..|t|] == t;
  }

  /** Imported choices: values are unique on every level, and every choice
      is unselected with its text equal to its value. */
  predicate ChoicesWellFormed(cs: seq<Choice>)
    decreases cs
  {
    && (forall i, j :: 0 <= i < j < |cs| ==> cs[i].value != cs[j].value)
    && forall i :: 0 <= i < |cs| ==>
        cs[i].text == cs[i].value && !cs[i].isSelected && ChoicesWellFormed(cs[i].choices)
  }

  /** The values on one level, in order. */
  function ValuesOf(cs: seq<Choice>): (vs: seq<string>)
    ensures |vs| == |cs|
    ensures forall i :: 0 <= i < |cs| ==> vs[i] == cs[i].value
  {
    seq(|cs|, i requires 0 <= i < |cs| => cs[i].value)
  }

  lemma {:induction false} ValuesAt(t: seq<Slot>)
    ensures |Values(t)| == |t|
    ensures forall i :: 0 <= i < |t| ==> Values(t)[i] == ToChoice(t[i].entry)
  {
    if t != [] {
      var init := t[..|t| - 1];
      ValuesAt(init);
      assert forall i :: 0 <= i < |init| ==> init[i] == t[i];
    }
  }

  /** The lists keep the keyed tree's shape: well-formed levels stay
      well-formed, and the values of a level are its keys in order. */
  lemma {:induction false} ValuesWellFormed(t: seq<Slot>)
    requires WellFormed(t)
    ensures ChoicesWellFormed(Values(t))
    ensures ValuesOf(Values(t)) == Keys(t)
    decreases t
  {
    ValuesAt(t);
    forall i | 0 <= i < |t|
      ensures ChoicesWellFormed(Values(t)[i].choices)
    {
      ValuesWellFormed(t[i].entry.choices);
    }
  }

  // =====================================================================
  // Inputs: one per header cell
  // =====================================================================

  /** The field imported into: its id and the names its current inputs
      carry, by position. */
  datatype Field = Field(id: int, inputNames: map<nat, string>)

  /** An input of the field; its id is written `<fieldId>.<suffix>`. */
  datatype Input = Input(fieldId: int, suffix: nat, labelText: string, name: string)

  function InputId(input: Input): string {
    IntToString(input.fieldId) + "." + NatToString(input.suffix)
  }

  /** The suffix of the `k`-th input (from 0). The import numbers inputs
      with a counter that starts at 1, passes over every multiple of ten and
      moves on by one per input; `BuildInputs` shows that this counter
      gives input `k` the number `k + k / 9 + 1`. */
  function InputSuffix(k: nat): nat {
    k + k / 9 + 1
  }

  /** The counter before input `index` is numbered. */
  function Counter(index: nat): nat {
    if index == 0 then 1 else InputSuffix(index - 1) + 1
  }

  /** One step of the counter: moving past a multiple of ten lands on the
      next input's suffix. */
  lemma CounterStep(index: nat)
    ensures var i := Counter(index);
      (if i % 10 == 0 then i + 1 else i) == InputSuffix(index)
  {
    if index > 0 {
      var k := index;
      var q, m := (k - 1) / 9, (k - 1) % 9;
      assert k - 1 == 9 * q + m;
      assert Counter(k) == 10 * q + m + 2;
      if m == 8 {
        assert k == 9 * (q + 1);
        assert k / 9 == q + 1;
        assert 10 * q + m + 2 == 10 * (q + 1);
      } else {
        assert k == 9 * q + (m + 1);
        assert k / 9 == q;
        assert (10 * q + m + 2) % 10 == m + 2;
      }
    }
  }

  lemma InputSuffixNotTen(k: nat)
    ensures InputSuffix(k) % 10 != 0
  {
    var q, m := k / 9, k % 9;
    assert k == 9 * q + m;
    assert InputSuffix(k) == 10 * q + m + 1;
  }

  lemma InputSuffixMonotone(k: nat, l: nat)
    ensures k < l ==> InputSuffix(k) < InputSuffix(l)
  {
    if k < l {
      assert k / 9 <= l / 9;
    }
  }

  /** The position among the inputs of the suffix `n`: the numbers below it
      less the multiples of ten among them. */
  function Position(n: nat): nat {
    if n == 0 then 0 else n - n / 10 - 1
  }

  /** Every positive number that is not a multiple of ten is some input's
      suffix. */
  lemma InputSuffixOnto(n: nat)
    requires n >= 1 && n % 10 != 0
    ensures InputSuffix(Position(n)) == n
  {
    var q, m := n / 10, n % 10;
    assert n == 10 * q + m;
    var k := n - q - 1;
    assert k == 9 * q + (m - 1);
    assert k / 9 == q;
  }

  /** The input made for header cell `k`: labelled with the cell, trimmed
      and with its tags stripped, and named as the field's `k`-th input was. */
  function HeaderInput(cell: string, k: nat, field: Field, stripTags: string -> string): Input {
    Input(field.id, InputSuffix(k), stripTags(PhpTrim(cell)),
          if k in field.inputNames then field.inputNames[k] else "")
  }

  /** The inputs of a header row, one per cell. */
  function HeaderInputs(header: seq<string>, field: Field, stripTags: string -> string): (inputs: seq<Input>)
    ensures |inputs| == |header|
  {
    if header == [] then []
    else
      var k := |header| - 1;
      HeaderInputs(header[..k], field, stripTags) + [HeaderInput(header[k], k, field, stripTags)]
  }

  lemma {:induction false} HeaderInputsAt(header: seq<string>, field: Field, stripTags: string -> string)
    ensures |HeaderInputs(header, field, stripTags)| == |header|
    ensures forall k :: 0 <= k < |header| ==>
      HeaderInputs(header, field, stripTags)[k] == HeaderInput(header[k], k, field, stripTags)
  {
    if header != [] {
      var init := header[..|header| - 1];
      HeaderInputsAt(init, field, stripTags);
      assert forall k :: 0 <= k < |init| ==> init[k] == header[k];
    }
  }

  /** The inputs of a header: one per cell in order, with suffixes that
      strictly increase and are never a multiple of ten. */
  lemma HeaderInputIds(header: seq<string>, field: Field, stripTags: string -> string)
    ensures forall k, l :: 0 <= k < l < |header| ==>
      HeaderInputs(header, field, stripTags)[k].suffix < HeaderInputs(header, field, stripTags)[l].suffix
    ensures forall k :: 0 <= k < |header| ==> HeaderInputs(header, field, stripTags)[k].suffix % 10 != 0
    ensures forall k :: 0 <= k < |header| ==>
      HeaderInputs(header, field, stripTags)[k].labelText == stripTags(PhpTrim(header[k]))
  {
    var inputs := HeaderInputs(header, field, stripTags);
    HeaderInputsAt(header, field, stripTags);
    forall k, l | 0 <= k < l < |header|
      ensures inputs[k].suffix < inputs[l].suffix
    {
      InputSuffixMonotone(k, l);
    }
    forall k | 0 <= k < |header|
      ensures inputs[k].suffix % 10 != 0
    {
      InputSuffixNotTen(k);
    }
  }

  /** No number is passed over: every number below the next free suffix
      that is not a multiple of ten belongs to one of the header's inputs. */
  lemma HeaderInputIdsDense(header: seq<string>, field: Field, stripTags: string -> string, n: nat)
    requires 1 <= n < InputSuffix(|header|) && n % 10 != 0
    ensures exists k :: 0 <= k < |header| && HeaderInputs(header, field, stripTags)[k].suffix == n
  {
    var k := Position(n);
    HeaderInputsAt(header, field, stripTags);
    InputSuffixOnto(n);
    InputSuffixMonotone(|header|, k);
    assert HeaderInputs(header, field, stripTags)[k].suffix == n;
  }

  lemma HeaderInputsSnoc(header: seq<string>, field: Field, stripTags: string -> string, index: nat)
    requires index < |header|
    ensures HeaderInputs(header[..index + 1], field, stripTags)
      == HeaderInputs(header[..index], field, stripTags) + [HeaderInput(header[index], index, field, stripTags)]
  {
    assert header[..index + 1][..index] == header[..index];
  }

  /** The loop over the header row. */
  method BuildInputs(header: seq<string>, field: Field, stripTags: string -> string) returns (inputs: seq<Input>)
    ensures inputs == HeaderInputs(header, field, stripTags)
  {
    var i: nat := 1;
    inputs := [];
    for index := 0 to |header|
      invariant i == Counter(index)
      invariant inputs == HeaderInputs(header[..index], field, stripTags)
    {
      CounterStep(index);
      if i % 10 == 0 {
        i := i + 1;
      }
      assert i == InputSuffix(index);
      var name := if index in field.inputNames then field.inputNames[index] else "";
      HeaderInputsSnoc(header, field, stripTags, index);
      inputs := inputs + [Input(field.id, i, stripTags(PhpTrim(header[index])), name)];
      i := i + 1;
    }
    assert header[..|header|] == header;
  }

  // =====================================================================
  // The limit on distinct values per column
  // =====================================================================

  /** How PHP's loose `==` sees a cell: strings that are integer numeric
      compare by value, all others by their text. */
  datatype LooseKey = Number(n: int) | Text(s: string)

  /** An integer numeric string: optional white space, an optional sign,
      decimal digits, optional trailing white space. */
  predicate IsIntegerNumeric(s: string) {
    if s == [] then false
    else if IsPhpSpace(s[0]) then IsIntegerNumeric(s[1..])
    else if s[0] == '-' || s[0] == '+' then DigitsThenSpace(s[1..], false)
    else DigitsThenSpace(s, false)
  }

  /** The rest of an integer numeric string once the sign is read: digits,
      at least one in all (`seen` says whether one was read already), then
      only white space. */
  predicate DigitsThenSpace(s: string, seen: bool) {
    if s == [] then seen
    else if IsDigit(s[0]) then DigitsThenSpace(s[1..], true)
    else seen && OnlySpace(s)
  }

  predicate OnlySpace(s: string) {
    s == [] || (IsPhpSpace(s[0]) && OnlySpace(s[1..]))
  }

  function Loose(s: string): LooseKey {
    if IsIntegerNumeric(s) then Number(PhpIntval(s)) else Text(s)
  }

  /** `in_array($x, $xs)`, loose comparison. */
  function LooseContains(xs: seq<string>, x: string): bool {
    if xs == [] then false
    else Loose(xs[0]) == Loose(x) || LooseContains(xs[1..], x)
  }

  lemma {:induction false} LooseContainsMeaning(xs: seq<string>, x: string)
    ensures LooseContains(xs, x) <==> exists i :: 0 <= i < |xs| && Loose(xs[i]) == Loose(x)
  {
    if xs != [] {
      LooseContainsMeaning(xs[1..], x);
      if !LooseContains(xs, x) {
        forall i | 0 <= i < |xs|
          ensures Loose(xs[i]) != Loose(x)
        {
          if i > 0 {
            assert xs[i] == xs[1..][i - 1];
          }
        }
      } else if Loose(xs[0]) != Loose(x) {
        var i :| 0 <= i < |xs| - 1 && Loose(xs[1..][i]) == Loose(x);
        assert xs[i + 1] == xs[1..][i];
      }
    }
  }

  /** A row the limit check looks at: `array_filter($row)` keeps a cell, that
      is, some cell is neither "" nor "0". */
  predicate HasTruthyCell(row: seq<string>) {
    exists j :: 0 <= j < |row| && !PhpEmpty(row[j])
  }

  /** Column `c` of `row` recorded when the column exists and holds no
      loosely equal value yet. */
  function AbsorbCell(u: seq<seq<string>>, row: seq<string>, c: nat): (v: seq<seq<string>>)
    requires c < |row|
    ensures |v| == |u|
  {
    if c < |u| && !LooseContains(u[c], row[c]) then u[c := u[c] + [row[c]]] else u
  }

  /** The first `n` cells of `row` recorded, left to right. */
  function AbsorbCells(u: seq<seq<string>>, row: seq<string>, n: nat): (v: seq<seq<string>>)
    requires n <= |row|
    ensures |v| == |u|
  {
    if n == 0 then u else AbsorbCell(AbsorbCells(u, row, n - 1), row, n - 1)
  }

  /** The values recorded per column after all of `rows`: the header gives
      one empty list per header cell, and each row with a truthy cell
      records its cells. */
  function Seen(rows: seq<seq<string>>): (u: seq<seq<string>>)
    ensures rows != [] ==> |u| == |rows[0]|
  {
    if rows == [] then []
    else if |rows| == 1 then seq(|rows[0]|, _ => [])
    else
      var init := rows[..|rows| - 1];
      assert init[0] == rows[0];
      var u := Seen(init);
      var row := rows[|rows| - 1];
      if HasTruthyCell(row) then AbsorbCells(u, row, |row|) else u
  }

  /** No column that was looked at holds more than `limit` values. */
  predicate Within(u: seq<seq<string>>, limit: int) {
    forall c :: 0 <= c < |u| ==> u[c] == [] || |u[c]| <= limit
  }

  predicate LimitExceeded(rows: seq<seq<string>>, limit: int) {
    !Within(Seen(rows), limit)
  }

  predicate Grown(u: seq<seq<string>>, v: seq<seq<string>>) {
    |u| == |v| && forall c :: 0 <= c < |u| ==> u[c] <= v[c]
  }

  lemma GrownTransitive(u: seq<seq<string>>, v: seq<seq<string>>, w: seq<seq<string>>)
    requires Grown(u, v) && Grown(v, w)
    ensures Grown(u, w)
  {
    forall c | 0 <= c < |u|
      ensures u[c] <= w[c]
    {
      assert u[c] == v[c][..|u[c]|];
      assert v[c] == w[c][..|v[c]|];
      assert w[c][..|v[c]|][..|u[c]|] == w[c][..|u[c]|];
    }
  }

  lemma AbsorbCellGrows(u: seq<seq<string>>, row: seq<string>, c: nat)
    requires c < |row|
    ensures Grown(u, AbsorbCell(u, row, c))
  {
    var v := AbsorbCell(u, row, c);
    forall d | 0 <= d < |u|
      ensures u[d] <= v[d]
    {
      if d == c && c < |u| && !LooseContains(u[c], row[c]) {
        assert v[d] == u[d] + [row[c]];
      } else {
        assert v[d] == u[d];
      }
    }
  }

  lemma {:induction false} CellsGrow(u: seq<seq<string>>, row: seq<string>, j: nat, k: nat)
    requires j <= k <= |row|
    ensures Grown(AbsorbCells(u, row, j), AbsorbCells(u, row, k))
    decreases k
  {
    if j < k {
      CellsGrow(u, row, j, k - 1);
      var v := AbsorbCells(u, row, k - 1);
      AbsorbCellGrows(v, row, k - 1);
      GrownTransitive(AbsorbCells(u, row, j), v, AbsorbCells(u, row, k));
    } else {
      assert Grown(AbsorbCells(u, row, j), AbsorbCells(u, row, j));
    }
  }

  lemma {:induction false} RowsGrow(rows: seq<seq<string>>, n: nat)
    requires 1 <= n <= |rows|
    ensures Grown(Seen(rows[..n]), Seen(rows))
  {
    if n == |rows| {
      assert rows[..n] == rows;
      assert Grown(Seen(rows), Seen(rows));
    } else {
      var init := rows[..|rows| - 1];
      assert init[..n] == rows[..n];
      RowsGrow(init, n);
      var row := rows[|rows| - 1];
      if HasTruthyCell(row) {
        CellsGrow(Seen(init), row, 0, |row|);
        GrownTransitive(Seen(rows[..n]), Seen(init), Seen(rows));
      }
    }
  }

  /** One more row taken into account. */
  lemma SeenSnoc(rows: seq<seq<string>>, n: nat)
    requires n < |rows|
    ensures Seen(rows[..n + 1]) ==
      if n == 0 then seq(|rows[0]|, _ => [])
      else if HasTruthyCell(rows[n]) then AbsorbCells(Seen(rows[..n]), rows[n], |rows[n]|)
      else Seen(rows[..n])
  {
    assert rows[..n + 1][..n] == rows[..n];
  }

  /** A column over the limit part-way through a row stays over it. */
  lemma ExceededStays(rows: seq<seq<string>>, rowIndex: nat, n: nat, c: nat, limit: int)
    requires 1 <= rowIndex < |rows| && HasTruthyCell(rows[rowIndex]) && n <= |rows[rowIndex]|
    requires var v := AbsorbCells(Seen(rows[..rowIndex]), rows[rowIndex], n);
      c < |v| && v[c] != [] && |v[c]| > limit
    ensures LimitExceeded(rows, limit)
  {
    var row := rows[rowIndex];
    var u := Seen(rows[..rowIndex]);
    CellsGrow(u, row, n, |row|);
    assert rows[..rowIndex + 1][..rowIndex] == rows[..rowIndex];
    assert Seen(rows[..rowIndex + 1]) == AbsorbCells(u, row, |row|);
    RowsGrow(rows, rowIndex + 1);
    GrownTransitive(AbsorbCells(u, row, n), AbsorbCells(u, row, |row|), Seen(rows));
    var w := Seen(rows);
    assert AbsorbCells(u, row, n)[c] <= w[c];
  }

  /** `is_choice_limit_exceeded`: true as soon as some column holds more than
      `limit` loosely distinct values, counting the header-wide columns of
      the rows with a truthy cell. */
  method IsChoiceLimitExceeded(rows: seq<seq<string>>, limit: int) returns (exceeded: bool)
    ensures exceeded == LimitExceeded(rows, limit)
  {
    var uniques: seq<seq<string>> := [];
    for rowIndex := 0 to |rows|
      invariant uniques == Seen(rows[..rowIndex])
      invariant Within(uniques, limit)
    {
      var row := rows[rowIndex];
      if rowIndex == 0 {
        uniques := seq(|row|, _ => []);
        SeenSnoc(rows, rowIndex);
        continue;
      }
      if !HasTruthyCell(row) {
        SeenSnoc(rows, rowIndex);
        continue;
      }
      var over;
      ghost var column;
      uniques, over, column := RecordRow(uniques, row, limit);
      if over {
        ExceededStays(rows, rowIndex, column + 1, column, limit);
        return true;
      }
      SeenSnoc(rows, rowIndex);
    }
    assert rows[..|rows|] == rows;
    return false;
  }

  /** Recording a cell keeps the other columns as they were. */
  lemma AbsorbCellWithin(u: seq<seq<string>>, row: seq<string>, c: nat, limit: int)
    requires c < |row| && c < |u| && Within(u, limit)
    requires |AbsorbCell(u, row, c)[c]| <= limit
    ensures Within(AbsorbCell(u, row, c), limit)
  {
    var v := AbsorbCell(u, row, c);
    forall d | 0 <= d < |v|
      ensures v[d] == [] || |v[d]| <= limit
    {
      if d != c {
        assert v[d] == u[d];
      }
    }
  }

  /** The inner loop of `is_choice_limit_exceeded`: the cells of one row
      recorded column by column; `over` when a column passes the limit, the
      row being recorded only up to that column. */
  method RecordRow(uniques: seq<seq<string>>, row: seq<string>, limit: int)
    returns (result: seq<seq<string>>, over: bool, ghost at: nat)
    requires Within(uniques, limit)
    ensures !over ==> result == AbsorbCells(uniques, row, |row|) && Within(result, limit)
    ensures over ==> at < |row| && at < |uniques| &&
                     var v := AbsorbCells(uniques, row, at + 1); v[at] != [] && |v[at]| > limit
  {
    at := 0;
    result := uniques;
    for column := 0 to |row|
      invariant result == AbsorbCells(uniques, row, column)
      invariant Within(result, limit)
    {
      if column >= |result| {
        continue;
      }
      ghost var prev := result;
      if !LooseContains(result[column], row[column]) {
        result := result[column := result[column] + [row[column]]];
      }
      assert result == AbsorbCell(prev, row, column);
      if |result[column]| > limit {
        return result, true, column;
      }
      AbsorbCellWithin(prev, row, column, limit);
    }
    return result, false, 0;
  }

  // ---------------------------------------------------------------------
  // What the limit counts, stated against the rows alone
  // ---------------------------------------------------------------------

  function LooseKeys(xs: seq<string>): set<LooseKey> {
    set i | 0 <= i < |xs| :: Loose(xs[i])
  }

  predicate LooseDistinct(xs: seq<string>) {
    forall i, j :: 0 <= i < j < |xs| ==> Loose(xs[i]) != Loose(xs[j])
  }

  /** The loosely distinct values of column `c` among the data rows with a
      truthy cell. */
  function ColumnKeys(rows: seq<seq<string>>, c: nat): set<LooseKey> {
    if |rows| <= 1 then {}
    else
      var row := rows[|rows| - 1];
      ColumnKeys(rows[..|rows| - 1], c)
      + (if HasTruthyCell(row) && c < |row| then {Loose(row[c])} else {})
  }

  lemma {:induction false} AbsorbCellsAt(u: seq<seq<string>>, row: seq<string>, n: nat, c: nat)
    requires n <= |row| && c < |u|
    ensures AbsorbCells(u, row, n)[c] ==
      if c < n && !LooseContains(u[c], row[c]) then u[c] + [row[c]] else u[c]
  {
    if n > 0 {
      AbsorbCellsAt(u, row, n - 1, c);
      var v := AbsorbCells(u, row, n - 1);
      assert AbsorbCells(u, row, n) == AbsorbCell(v, row, n - 1);
      if c == n - 1 {
        assert c >= n - 1 && v[c] == u[c];
      } else {
        assert AbsorbCell(v, row, n - 1)[c] == v[c];
      }
    }
  }

  lemma LooseKeysSnoc(xs: seq<string>, x: string)
    ensures LooseKeys(xs + [x]) == LooseKeys(xs) + {Loose(x)}
  {
    var ys := xs + [x];
    forall k | k in LooseKeys(ys)
      ensures k in LooseKeys(xs) + {Loose(x)}
    {
      var i :| 0 <= i < |ys| && Loose(ys[i]) == k;
      if i < |xs| {
        assert ys[i] == xs[i];
      }
    }
    forall k | k in LooseKeys(xs)
      ensures k in LooseKeys(ys)
    {
      var i :| 0 <= i < |xs| && Loose(xs[i]) == k;
      assert ys[i] == xs[i];
    }
    assert Loose(ys[|xs|]) in LooseKeys(ys);
  }

  /** Column `c` of `Seen(rows)` holds each loosely distinct value of that
      column once. */
  lemma {:induction false} SeenColumn(rows: seq<seq<string>>, c: nat)
    requires rows != [] && c < |rows[0]|
    ensures LooseDistinct(Seen(rows)[c])
    ensures LooseKeys(Seen(rows)[c]) == ColumnKeys(rows, c)
  {
    if |rows| > 1 {
      var init := rows[..|rows| - 1];
      var row := rows[|rows| - 1];
      assert init[0] == rows[0];
      SeenColumn(init, c);
      var xs := Seen(init)[c];
      if HasTruthyCell(row) {
        AbsorbCellsAt(Seen(init), row, |row|, c);
        if c < |row| {
          LooseContainsMeaning(xs, row[c]);
        }
        if c < |row| && !LooseContains(xs, row[c]) {
          LooseKeysSnoc(xs, row[c]);
          var ys := xs + [row[c]];
          forall i, j | 0 <= i < j < |ys|
            ensures Loose(ys[i]) != Loose(ys[j])
          {
            if j == |xs| {
              assert ys[i] == xs[i];
            }
          }
        } else if c < |row| {
          var i :| 0 <= i < |xs| && Loose(xs[i]) == Loose(row[c]);
          assert Loose(row[c]) in LooseKeys(xs);
        }
      }
    } else {
      assert LooseKeys([]) == {};
    }
  }

  lemma {:induction false} LooseDistinctCount(xs: seq<string>)
    requires LooseDistinct(xs)
    ensures |LooseKeys(xs)| == |xs|
  {
    if xs != [] {
      var init := xs[..|xs| - 1];
      assert xs == init + [xs[|xs| - 1]];
      LooseDistinctCount(init);
      LooseKeysSnoc(init, xs[|xs| - 1]);
      assert Loose(xs[|xs| - 1]) !in LooseKeys(init) by {
        forall i | 0 <= i < |init|
          ensures Loose(init[i]) != Loose(xs[|xs| - 1])
        {
          assert init[i] == xs[i];
        }
      }
    }
  }

  /** The number of values recorded for a header column is the number of
      its loosely distinct values. */
  lemma ColumnCount(rows: seq<seq<string>>, c: nat)
    requires rows != [] && c < |rows[0]|
    ensures |Seen(rows)[c]| == |ColumnKeys(rows, c)|
  {
    SeenColumn(rows, c);
    LooseDistinctCount(Seen(rows)[c]);
  }

  /** The limit is exceeded exactly when some header column has, among the
      rows with a truthy cell, more than `limit` loosely distinct values
      (and at least one). */
  lemma LimitMeaning(rows: seq<seq<string>>, limit: int)
    requires rows != []
    ensures LimitExceeded(rows, limit) <==>
      exists c :: 0 <= c < |rows[0]| && |ColumnKeys(rows, c)| > 0 && |ColumnKeys(rows, c)| > limit
  {
    var u := Seen(rows);
    if LimitExceeded(rows, limit) {
      var c :| 0 <= c < |u| && u[c] != [] && |u[c]| > limit;
      ColumnCount(rows, c);
    }
    if exists c :: 0 <= c < |rows[0]| && |ColumnKeys(rows, c)| > 0 && |ColumnKeys(rows, c)| > limit {
      var c :| 0 <= c < |rows[0]| && |ColumnKeys(rows, c)| > 0 && |ColumnKeys(rows, c)| > limit;
      ColumnCount(rows, c);
      assert u[c] != [] && |u[c]| > limit;
    }
  }

  // =====================================================================
  // The import
  // =====================================================================

  datatype ImportError =
    | ReadFailed(reason: XlsxParser.ReadError)
    | InsufficientData       // fewer than a header row and one data row
    | ColumnMaxExceeded      // some column over the distinct-value limit

  /** What an import yields: the field's new inputs and its choices. */
  datatype Imported = Imported(inputs: seq<Input>, choices: seq<Choice>)

  /** The outcome of importing `rows`: at least two rows are needed, then the
      limit is checked, then the inputs and the choices are built. */
  function ImportOutcome(rows: seq<seq<string>>, field: Field, limit: int,
                         sanitize: string -> string, stripTags: string -> string): Result<Imported, ImportError>
  {
    if |rows| < 2 then Failure(InsufficientData)
    else if LimitExceeded(rows, limit) then Failure(ColumnMaxExceeded)
    else Success(Imported(HeaderInputs(rows[0], field, stripTags), Values(BuildTree(rows[1..], sanitize))))
  }

  /** The part of `import_xlsx_choices` that follows reading the rows. */
  method ImportRows(rows: seq<seq<string>>, field: Field, limit: int,
                    sanitize: string -> string, stripTags: string -> string)
    returns (result: Result<Imported, ImportError>)
    ensures result == ImportOutcome(rows, field, limit, sanitize, stripTags)
  {
    if |rows| < 2 {
      return Failure(InsufficientData);
    }
    var exceeded := IsChoiceLimitExceeded(rows, limit);
    if exceeded {
      return Failure(ColumnMaxExceeded);
    }
    var inputs := BuildInputs(rows[0], field, stripTags);
    var tree := BuildChoiceTree(rows, sanitize);
    var choices := ArrayValuesRecursive(tree);
    return Success(Imported(inputs, choices));
  }

  /** `import_xlsx_choices`: the rows come from the spreadsheet reader; its
      errors are passed on unchanged. Once the archive opens, the reader's
      shared string table holds the text of each `si` of the archive's
      shared-strings part (none without a well-formed part), and the sheet's
      rows are read through it. */
  method ImportXlsxChoices(reader: XlsxParser.XlsxReader, zipSupport: bool, file: XlsxParser.Upload,
                           field: Field, limit: int,
                           sanitize: string -> string, stripTags: string -> string)
    returns (result: Result<Imported, ImportError>)
    modifies reader
    ensures !zipSupport ==> result == Failure(ReadFailed(XlsxParser.NoZipSupport))
    ensures zipSupport && file.Missing? ==> result == Failure(ReadFailed(XlsxParser.FileNotFound))
    ensures zipSupport && file.NotAZip? ==> result == Failure(ReadFailed(XlsxParser.ZipOpenFailed))
    ensures !(zipSupport && file.Zip?) ==> reader.sharedStrings == old(reader.sharedStrings)
    ensures zipSupport && file.Zip? ==>
      var part := file.archive.sharedStrings;
      if part.Some? && part.value.WellFormed? then
        |reader.sharedStrings| == |part.value.doc| &&
        forall i :: 0 <= i < |reader.sharedStrings| ==> reader.sharedStrings[i] == XlsxParser.ItemText(part.value.doc[i])
      else reader.sharedStrings == []
    ensures zipSupport && file.Zip? && file.archive.sheet1.None? ==>
      result == Failure(ReadFailed(XlsxParser.NoWorksheet))
    ensures zipSupport && file.Zip? && file.archive.sheet1 == Some(XlsxParser.Malformed) ==>
      result == Failure(ReadFailed(XlsxParser.XmlParseFailed))
    ensures zipSupport && file.Zip? && file.archive.sheet1.Some? && file.archive.sheet1.value.WellFormed? ==>
      result == ImportOutcome(XlsxParser.SheetRows(file.archive.sheet1.value.doc, reader.sharedStrings),
                              field, limit, sanitize, stripTags)
  {
    var rows := reader.ExtractAllRows(zipSupport, file);
    if rows.Failure? {
      return Failure(ReadFailed(rows.error));
    }
    result := ImportRows(rows.value, field, limit, sanitize, stripTags);
  }

  /** What a successful import yields: one input per header cell; choices
      that are well formed, that key back into the tree the rows build, and
      whose first level holds the first non-empty cell of each data row,
      each value once, in the order the rows bring them. */
  lemma ImportedShape(rows: seq<seq<string>>, field: Field, limit: int,
                      sanitize: string -> string, stripTags: string -> string)
    requires ImportOutcome(rows, field, limit, sanitize, stripTags).Success?
    ensures var imported := ImportOutcome(rows, field, limit, sanitize, stripTags).value;
      && |imported.inputs| == |rows[0]|
      && ChoicesWellFormed(imported.choices)
      && Rekey(imported.choices) == BuildTree(rows[1..], sanitize)
      && ValuesOf(imported.choices) == Distinct(NextKeys(RowPaths(rows[1..], sanitize), []))
  {
    var tree := BuildTree(rows[1..], sanitize);
    BuildWellFormed(rows[1..], sanitize);
    ValuesWellFormed(tree);
    WellFormedKeyedByValue(tree);
    RekeyValues(tree);
    ChildKeysBuild(rows[1..], sanitize, []);
  }

  /** A column whose only values are "0" and "a" passes a limit of one:
      the row holding "0" is not counted. */
  lemma LimitPassesZeroRow()
    ensures !LimitExceeded([["Level"], ["0"], ["a"]], 1)
  {
    var rows := [["Level"], ["0"], ["a"]];
    assert !HasTruthyCell(rows[1]);
    assert HasTruthyCell(rows[2]) by {
      assert !PhpEmpty(rows[2][0]);
    }
    assert rows[..1] == [["Level"]];
    assert rows[..2] == [["Level"], ["0"]];
    assert rows[..3] == rows;
    assert Seen(rows[..1]) == [[]];
    SeenSnoc(rows, 1);
    assert Seen(rows[..2]) == [[]];
    SeenSnoc(rows, 2);
    assert AbsorbCells([[]], ["a"], 1) == AbsorbCell([[]], ["a"], 0);
    assert !LooseContains([], "a");
    var none: seq<string> := [];
    assert none + ["a"] == ["a"];
    assert [none][0 := none + ["a"]] == [["a"]];
    assert AbsorbCell([none], ["a"], 0) == [["a"]];
    assert Seen(rows[..3]) == [["a"]];
  }

  /** A one-cell row whose cell needs no trimming walks to that cell. */
  lemma SingleCellRow(x: string)
    requires x != "" && PhpTrim(x) == x
    ensures !IsBlank([x]) && RowPath([x], s => s) == [x]
  {
    assert [x][0] == x;
    assert [x][..0] == [];
    var id := (s: string) => s;
    assert RowPath([x], id) == [] + [id(PhpTrim(x))];
  }

  /** The tree built from the rows "0" and "a" has both as choices. */
  lemma BuildKeepsZeroRow()
    ensures ChildKeys(BuildTree([["0"], ["a"]], s => s), []) == ["0", "a"]
  {
    var data := [["0"], ["a"]];
    var id := (s: string) => s;
    SingleCellRow("0");
    SingleCellRow("a");
    var first := [Slot("0", NewEntry("0"))];
    assert Insert([], ["0"]) == first by {
      assert ["0"][1..] == [];
    }
    assert data[..1] == [["0"]];
    assert BuildTree(data[..1], id) == first;
    var both := first + [Slot("a", NewEntry("a"))];
    assert Insert(first, ["a"]) == both by {
      assert KeyIndex(first, "a") == None;
      assert ["a"][1..] == [];
    }
    assert BuildTree(data, id) == both;
    assert Keys(both) == ["0", "a"];
  }

  /** The limit check and the tree builder do not skip the same rows: a row
      whose only cell is "0" is left out of the count but becomes a choice,
      so a column can pass the check with more values than the limit. */
  lemma LimitSkipsZeroRows()
    ensures var rows := [["Level"], ["0"], ["a"]];
      && !LimitExceeded(rows, 1)
      && ChildKeys(BuildTree(rows[1..], s => s), []) == ["0", "a"]
  {
    var rows := [["Level"], ["0"], ["a"]];
    LimitPassesZeroRow();
    BuildKeepsZeroRow();
    assert rows[1..] == [["0"], ["a"]];
  }
}
