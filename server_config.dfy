/**
 * The configuration of the proxy server (proxy-server/src/config.rs): the
 * upstream proxy entries, the recursive merge of two TOML trees
 * (`merge_toml_values`) and the fold of the user's rules files followed by
 * the built-in rules (`user_rules`).
 */
module ServerConfig {
  import opened Wrappers
  import opened Text

  datatype ProxyMode = Direct | Proxy | Auto

  /** `Authorization::Basic`. */
  datatype Authorization = Basic(username: Bytes, password: Bytes)

  /** An upstream proxy entry: a name, a scheme ("socks5", "http", "https", ...), where it listens and its credentials. */
  datatype ProxyEntry = ProxyEntry(name: Bytes, scheme: Bytes, host: Bytes, port: Uint16, authorization: Option<Authorization>)

  datatype Config = Config(httpListen: Bytes, socks5Listen: Bytes, proxyMode: ProxyMode, proxy: Bytes, proxies: seq<ProxyEntry>)

  /**
   * A TOML value. Floats and datetimes are kept as their text: the merge
   * treats every scalar alike. A table is a map from key to value (its
   * iteration order does not matter to the merge, as each key is visited once).
   */
  datatype Value =
    | Str(s: Bytes)
    | Integer(i: int)
    | Boolean(b: bool)
    | OtherScalar(text: Bytes)
    | Array(items: seq<Value>)
    | Table(entries: map<Bytes, Value>)

  predicate IsScalar(v: Value) { !v.Array? && !v.Table? }

  const NAME: Bytes := Lit("name")

  /** The empty table the fold of `user_rules` starts from. */
  const EMPTY: Value := Table(map[])

  /** The merge depth `user_rules` uses. */
  const USER_RULES_DEPTH: nat := 3

  /** `get_name`: the string stored under "name" in a table. */
  function NameOf(v: Value): Option<Bytes>
  {
    if v.Table? && NAME in v.entries && v.entries[NAME].Str? then Some(v.entries[NAME].s) else None
  }

  /** `position`: the index of the first item named `name`. */
  function Position(items: seq<Value>, name: Bytes): (r: Option<nat>)
    ensures r.Some? ==> r.value < |items| && NameOf(items[r.value]) == Some(name)
    ensures r.Some? ==> forall j :: 0 <= j < r.value ==> NameOf(items[j]) != Some(name)
    ensures r.None? ==> forall j :: 0 <= j < |items| ==> NameOf(items[j]) != Some(name)
  {
    if items == [] then None
    else if NameOf(items[0]) == Some(name) then Some(0)
    else match Position(items[1..], name)
      case None => None
      case Some(i) => Some(i + 1)
  }

  /**
   * `merge_toml_values(left, right, depth)`: two arrays or two tables are
   * merged while the depth lasts; every other pair gives the right value.
   */
  function Merge(left: Value, right: Value, depth: nat): (r: Value)
    ensures r.Array? <==> right.Array?
    ensures r.Table? <==> right.Table?
    ensures IsScalar(right) ==> r == right
    ensures !(left.Array? && right.Array?) && !(left.Table? && right.Table?) ==> r == right
    ensures depth == 0 ==> r == right
    decreases depth, 1, 0
  {
    if left.Array? && right.Array? && depth > 0 then Array(MergeItems(left.items, right.items, depth))
    else if left.Table? && right.Table? && depth > 0 then Table(MergeKeys(left.entries, right.entries, right.entries.Keys, depth))
    else right
  }

  /** The index of the left item a right item replaces: the first one with its name. */
  function Match(items: seq<Value>, rvalue: Value): Option<nat>
  {
    match NameOf(rvalue)
    case None => None
    case Some(n) => Position(items, n)
  }

  /** One turn of the array loop: a matched item is taken out and their merge goes to the end; otherwise the right item does. */
  function PushItem(items: seq<Value>, rvalue: Value, depth: nat): (r: seq<Value>)
    requires depth > 0
    ensures Match(items, rvalue).None? ==> r == items + [rvalue]
    decreases depth, 0, 0
  {
    match Match(items, rvalue)
    case None => items + [rvalue]
    case Some(i) => items[..i] + items[i + 1..] + [Merge(items[i], rvalue, depth - 1)]
  }

  /** The array loop over the right items, in their order. */
  function MergeItems(left: seq<Value>, right: seq<Value>, depth: nat): seq<Value>
    requires depth > 0
    decreases depth, 0, |right| + 1
  {
    if right == [] then left
    else PushItem(MergeItems(left, right[..|right| - 1], depth), right[|right| - 1], depth)
  }

  /**
   * The table after the loop has visited the right keys `done`: a visited
   * key holds the merge of both values, or the right value alone; every
   * other key keeps its left value.
   */
  function MergeKeys(left: map<Bytes, Value>, right: map<Bytes, Value>, done: set<Bytes>, depth: nat): map<Bytes, Value>
    requires done <= right.Keys && depth > 0
    decreases depth, 0, 0
  {
    map k | k in left.Keys + done ::
      if k !in done then left[k]
      else if k in left then Merge(left[k], right[k], depth - 1)
      else right[k]
  }

  /** `merge_toml_values`, loop by loop, on the left value's own array and table. */
  method MergeValues(left: Value, right: Value, depth: nat) returns (r: Value)
    ensures r == Merge(left, right, depth)
    decreases depth, 2
  {
    if left.Array? && right.Array? && depth > 0 {
      var items := MergeArrays(left.items, right.items, depth);
      r := Array(items);
    } else if left.Table? && right.Table? && depth > 0 {
      var entries := MergeTables(left.entries, right.entries, depth);
      r := Table(entries);
    } else {
      r := right;
    }
  }

  /** The array loop: each right item takes out the left item it matches, and their merge (or the item itself) is pushed. */
  method MergeArrays(left: seq<Value>, right: seq<Value>, depth: nat) returns (leftItems: seq<Value>)
    requires depth > 0
    ensures leftItems == MergeItems(left, right, depth)
    decreases depth, 1
  {
    leftItems := left;
    for n := 0 to |right|
      invariant leftItems == MergeItems(left, right[..n], depth)
    {
      var rvalue := right[n];
      var lpos := Match(leftItems, rvalue);
      var mvalue := rvalue;
      if lpos.Some? {
        var lvalue := leftItems[lpos.value];
        leftItems := leftItems[..lpos.value] + leftItems[lpos.value + 1..];
        mvalue := MergeValues(lvalue, rvalue, depth - 1);
      }
      leftItems := leftItems + [mvalue];
      assert right[..n + 1][..n] == right[..n];
    }
    assert right[..|right|] == right;
  }

  /** The table loop: each right key is removed from the left map and put back merged, or added. */
  method MergeTables(left: map<Bytes, Value>, right: map<Bytes, Value>, depth: nat) returns (leftMap: map<Bytes, Value>)
    requires depth > 0
    ensures leftMap == MergeKeys(left, right, right.Keys, depth)
    decreases depth, 1
  {
    leftMap := left;
    var todo := right.Keys;
    ghost var done: set<Bytes> := {};
    MergeKeysNone(left, right, depth);
    while todo != {}
      invariant todo <= right.Keys && done == right.Keys - todo
      invariant leftMap == MergeKeys(left, right, done, depth)
      decreases todo
    {
      var rname :| rname in todo;
      leftMap := MergeKey(left, right, done, leftMap, rname, depth);
      todo := todo - {rname};
      done := done + {rname};
    }
  }

  lemma MergeKeysNone(left: map<Bytes, Value>, right: map<Bytes, Value>, depth: nat)
    requires depth > 0
    ensures MergeKeys(left, right, {}, depth) == left
  {
  }

  /** One turn of the table loop: `remove` the key from the left map, then insert the merge or the right value. */
  method MergeKey(left: map<Bytes, Value>, right: map<Bytes, Value>, ghost done: set<Bytes>, leftMap: map<Bytes, Value>, rname: Bytes, depth: nat)
    returns (r: map<Bytes, Value>)
    requires done <= right.Keys && rname in right.Keys - done && depth > 0
    requires leftMap == MergeKeys(left, right, done, depth)
    ensures r == MergeKeys(left, right, done + {rname}, depth)
    decreases depth, 0
  {
    var rvalue := right[rname];
    MergeKeysStep(left, right, done, rname, depth);
    r := leftMap;
    if rname in r {
      var lvalue := r[rname];
      r := r - {rname};
      var merged := MergeValues(lvalue, rvalue, depth - 1);
      r := r[rname := merged];
    } else {
      assert r - {rname} == r;
      r := r[rname := rvalue];
    }
  }

  /** Visiting one more right key changes the table at that key only. */
  lemma MergeKeysStep(left: map<Bytes, Value>, right: map<Bytes, Value>, done: set<Bytes>, k: Bytes, depth: nat)
    requires done <= right.Keys && k in right.Keys - done && depth > 0
    ensures var m := MergeKeys(left, right, done, depth);
            && (k in m <==> k in left)
            && (k in left ==> m[k] == left[k])
            && MergeKeys(left, right, done + {k}, depth)
               == (m - {k})[k := if k in left then Merge(left[k], right[k], depth - 1) else right[k]]
  {
  }

  // ---- paths into a tree ----

  /** The value reached by following table keys. */
  function Lookup(v: Value, path: seq<Bytes>): Option<Value>
  {
    if path == [] then Some(v)
    else if v.Table? && path[0] in v.entries then Lookup(v.entries[path[0]], path[1..])
    else None
  }

  /** `v` is a table along `path` until a key is missing: the path leads nowhere and nothing on it replaces a table. */
  predicate Absent(v: Value, path: seq<Bytes>)
  {
    |path| > 0 && v.Table?
    && (path[0] !in v.entries || Absent(v.entries[path[0]], path[1..]))
  }

  /** A scalar of the right tree is in the merge at the same place, at every depth. */
  lemma {:induction false} RightScalarWins(left: Value, right: Value, depth: nat, path: seq<Bytes>, s: Value)
    requires Lookup(right, path) == Some(s) && IsScalar(s)
    ensures Lookup(Merge(left, right, depth), path) == Some(s)
  {
    if path != [] && left.Table? && right.Table? && depth > 0 {
      var k := path[0];
      var m := MergeKeys(left.entries, right.entries, right.entries.Keys, depth);
      assert Merge(left, right, depth) == Table(m);
      if k in left.entries {
        RightScalarWins(left.entries[k], right.entries[k], depth - 1, path[1..], s);
      }
    }
  }

  /** A value of the left tree survives where the right tree has nothing and never replaces a table, if the depth reaches it. */
  lemma {:induction false} LeftKeptWhereRightAbsent(left: Value, right: Value, depth: nat, path: seq<Bytes>)
    requires |path| <= depth && Lookup(left, path).Some? && Absent(right, path)
    ensures Lookup(Merge(left, right, depth), path) == Lookup(left, path)
  {
    var k := path[0];
    var m := MergeKeys(left.entries, right.entries, right.entries.Keys, depth);
    assert Merge(left, right, depth) == Table(m);
    if k in right.entries {
      LeftKeptWhereRightAbsent(left.entries[k], right.entries[k], depth - 1, path[1..]);
    }
  }

  /** Merging into the empty table gives the right value back: the seed of the fold is neutral. */
  lemma MergeIntoEmpty(right: Value, depth: nat)
    ensures Merge(EMPTY, right, depth) == right
  {
    if right.Table? && depth > 0 {
      assert MergeKeys(map[], right.entries, right.entries.Keys, depth) == right.entries;
    }
  }

  // ---- array merge: names ----

  /** The names the items of an array carry. */
  function Names(items: seq<Value>): set<Bytes>
  {
    set i | 0 <= i < |items| && NameOf(items[i]).Some? :: NameOf(items[i]).value
  }

  lemma NamesAppend(a: seq<Value>, b: seq<Value>)
    ensures Names(a + b) == Names(a) + Names(b)
  {
    var ab := a + b;
    forall n | n in Names(a + b) ensures n in Names(a) + Names(b) {
      var i :| 0 <= i < |ab| && NameOf(ab[i]) == Some(n);
      if i < |a| { assert ab[i] == a[i]; } else { assert ab[i] == b[i - |a|]; }
    }
    forall n | n in Names(b) ensures n in Names(a + b) {
      var i :| 0 <= i < |b| && NameOf(b[i]) == Some(n);
      assert ab[|a| + i] == b[i];
    }
    forall n | n in Names(a) ensures n in Names(a + b) {
      var i :| 0 <= i < |a| && NameOf(a[i]) == Some(n);
      assert ab[i] == a[i];
    }
  }

  lemma NamesOne(v: Value)
    ensures Names([v]) == if NameOf(v).Some? then {NameOf(v).value} else {}
  {
    if NameOf(v).Some? {
      assert [v][0] == v;
    }
  }

  /** A merged entry keeps the name it shares with the right entry. */
  lemma MergeKeepsName(left: Value, right: Value, depth: nat)
    requires NameOf(right).Some? && NameOf(left) == NameOf(right)
    ensures NameOf(Merge(left, right, depth)) == NameOf(right)
  {
    if depth > 0 {
      var m := MergeKeys(left.entries, right.entries, right.entries.Keys, depth);
      assert Merge(left, right, depth) == Table(m);
      assert m[NAME] == Merge(left.entries[NAME], right.entries[NAME], depth - 1);
    }
  }

  /** One turn of the array loop: the names are the old ones plus the right item's. */
  lemma PushItemNames(items: seq<Value>, rvalue: Value, depth: nat)
    requires depth > 0
    ensures Names(PushItem(items, rvalue, depth)) == Names(items) + Names([rvalue])
  {
    match Match(items, rvalue)
    case None =>
      NamesAppend(items, [rvalue]);
    case Some(i) =>
      MergeKeepsName(items[i], rvalue, depth - 1);
      NamesReplace(items, i, Merge(items[i], rvalue, depth - 1));
      NamesOne(rvalue);
  }

  /** Replacing an item by one of the same name, moved to the end, keeps the names. */
  lemma NamesReplace(items: seq<Value>, i: nat, m: Value)
    requires i < |items| && NameOf(m) == NameOf(items[i])
    ensures Names(items[..i] + items[i + 1..] + [m]) == Names(items)
    ensures NameOf(items[i]).Some? ==> NameOf(items[i]).value in Names(items)
  {
    NamesOne(m);
    NamesOne(items[i]);
    NamesAppend(items[..i], items[i + 1..]);
    NamesAppend(items[..i] + items[i + 1..], [m]);
    NamesAppend(items[..i], [items[i]]);
    NamesAppend(items[..i] + [items[i]], items[i + 1..]);
    Around(items, i);
  }

  /** Merging arrays keeps every name of the left array and adds every name of the right one. */
  lemma {:induction false} MergeItemsNames(left: seq<Value>, right: seq<Value>, depth: nat)
    requires depth > 0
    ensures Names(MergeItems(left, right, depth)) == Names(left) + Names(right)
  {
    if right != [] {
      var init := right[..|right| - 1];
      MergeItemsNames(left, init, depth);
      PushItemNames(MergeItems(left, init, depth), right[|right| - 1], depth);
      NamesAppend(init, [right[|right| - 1]]);
      assert init + [right[|right| - 1]] == right;
    }
  }

  /** Each right item either replaces one left item or is added: the merged array is no shorter than the left and no longer than both. */
  lemma {:induction false} MergeItemsLength(left: seq<Value>, right: seq<Value>, depth: nat)
    requires depth > 0
    ensures |left| <= |MergeItems(left, right, depth)| <= |left| + |right|
  {
    if right != [] {
      MergeItemsLength(left, right[..|right| - 1], depth);
    }
  }

  /** Right items without a name are appended in order after the left items. */
  lemma {:induction false} UnnamedItemsAppended(left: seq<Value>, right: seq<Value>, depth: nat)
    requires depth > 0
    requires forall j :: 0 <= j < |right| ==> NameOf(right[j]).None?
    ensures MergeItems(left, right, depth) == left + right
  {
    if right != [] {
      var init := right[..|right| - 1];
      UnnamedItemsAppended(left, init, depth);
      assert Match(left + init, right[|right| - 1]).None?;
      assert left + init + [right[|right| - 1]] == left + right;
    }
  }

  // ---- user_rules ----

  /** A TOML syntax error, as the parser reports it. */
  datatype TomlError = TomlError(message: Bytes)

  /** A candidate `rules.toml`: unreadable (skipped), or read and parsed. */
  datatype RulesFile = Unreadable | Parsed(value: Result<Value, TomlError>)

  /** `filter_map` then `collect::<Result<Vec<_>, _>>`: the parsed files in order, or the first parse error. */
  function Loaded(files: seq<RulesFile>): (r: Result<seq<Value>, TomlError>)
    ensures r.Err? <==> exists i :: 0 <= i < |files| && files[i].Parsed? && files[i].value.Err?
    ensures r.Err? ==> exists i :: 0 <= i < |files| && files[i] == Parsed(Err(r.error))
                                   && forall j :: 0 <= j < i ==> !(files[j].Parsed? && files[j].value.Err?)
    ensures r.Ok? ==> |r.value| <= |files|
  {
    if files == [] then Ok([])
    else
      var rest := Loaded(files[1..]);
      match files[0]
      case Unreadable =>
        assert forall i :: 1 <= i < |files| ==> files[i] == files[1..][i - 1];
        rest
      case Parsed(Err(e)) => Err(e)
      case Parsed(Ok(v)) =>
        assert forall i :: 1 <= i < |files| ==> files[i] == files[1..][i - 1];
        if rest.Err? then rest else Ok([v] + rest.value)
  }

  /** `fold(acc, |a, b| merge_toml_values(a, b, 3))`. */
  function FoldMerge(acc: Value, vs: seq<Value>): Value
    decreases |vs|
  {
    if vs == [] then acc else FoldMerge(Merge(acc, vs[0], USER_RULES_DEPTH), vs[1..])
  }

  /** `user_rules`: the user's files in order, then the built-in rules, folded into the empty table. */
  function UserRules(files: seq<RulesFile>, defaults: Value): Result<Value, TomlError>
  {
    match Loaded(files)
    case Err(e) => Err(e)
    case Ok(vs) => Ok(FoldMerge(EMPTY, vs + [defaults]))
  }

  /** The built-in rules are merged last. */
  lemma {:induction false} FoldMergeLast(acc: Value, vs: seq<Value>, last: Value)
    ensures FoldMerge(acc, vs + [last]) == Merge(FoldMerge(acc, vs), last, USER_RULES_DEPTH)
    decreases |vs|
  {
    if vs != [] {
      assert (vs + [last])[1..] == vs[1..] + [last];
      FoldMergeLast(Merge(acc, vs[0], USER_RULES_DEPTH), vs[1..], last);
    }
  }

  /** The rules are refused exactly when one of the readable files does not parse. */
  lemma UserRulesFail(files: seq<RulesFile>, defaults: Value)
    ensures UserRules(files, defaults).Err?
            <==> exists i :: 0 <= i < |files| && files[i].Parsed? && files[i].value.Err?
  {
  }

  /** Without any user file, the rules are the built-in ones. */
  lemma UserRulesWithoutFiles(files: seq<RulesFile>, defaults: Value)
    requires forall i :: 0 <= i < |files| ==> files[i] == Unreadable
    ensures UserRules(files, defaults) == Ok(defaults)
  {
    assert Loaded(files).Ok?;
    var vs := Loaded(files).value;
    UserRulesWithoutFilesLoaded(files);
    assert vs + [defaults] == [defaults];
    assert FoldMerge(Merge(EMPTY, defaults, USER_RULES_DEPTH), []) == Merge(EMPTY, defaults, USER_RULES_DEPTH);
    assert FoldMerge(EMPTY, [defaults]) == Merge(EMPTY, defaults, USER_RULES_DEPTH);
    MergeIntoEmpty(defaults, USER_RULES_DEPTH);
  }

  lemma {:induction false} UserRulesWithoutFilesLoaded(files: seq<RulesFile>)
    requires forall i :: 0 <= i < |files| ==> files[i] == Unreadable
    ensures Loaded(files) == Ok([])
  {
    if files != [] {
      UserRulesWithoutFilesLoaded(files[1..]);
    }
  }

  /** A scalar of the built-in rules overrides whatever the user's files say at the same key. */
  lemma DefaultsWin(files: seq<RulesFile>, defaults: Value, path: seq<Bytes>, s: Value)
    requires Lookup(defaults, path) == Some(s) && IsScalar(s)
    requires UserRules(files, defaults).Ok?
    ensures Lookup(UserRules(files, defaults).value, path) == Some(s)
  {
    var vs := Loaded(files).value;
    FoldMergeLast(EMPTY, vs, defaults);
    RightScalarWins(FoldMerge(EMPTY, vs), defaults, USER_RULES_DEPTH, path, s);
  }

  /** A user setting survives, up to three keys deep, where the built-in rules say nothing. */
  lemma UserOnlyKept(files: seq<RulesFile>, defaults: Value, path: seq<Bytes>)
    requires Loaded(files).Ok?
    requires |path| <= USER_RULES_DEPTH && Absent(defaults, path)
    requires Lookup(FoldMerge(EMPTY, Loaded(files).value), path).Some?
    ensures UserRules(files, defaults).Ok?
    ensures Lookup(UserRules(files, defaults).value, path) == Lookup(FoldMerge(EMPTY, Loaded(files).value), path)
  {
    var vs := Loaded(files).value;
    FoldMergeLast(EMPTY, vs, defaults);
    LeftKeptWhereRightAbsent(FoldMerge(EMPTY, vs), defaults, USER_RULES_DEPTH, path);
  }
}
