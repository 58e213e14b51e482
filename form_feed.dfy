/**
 * The form feed's field table: a nested form configuration is flattened
 * into a table from paths to the values at its leaves. A key below a
 * non-empty prefix extends it as prefix/key, or as prefix[key] when the
 * key is numeric.
 */
module FormFeed {
  import opened Wrappers

  /**
   * A configuration value as `typeof` sees it: an object (an array is one,
   * with keys "0", "1", ...), null (whose `typeof` is also "object"), or
   * anything else (a string, a number, a boolean), kept as its text.
   */
  datatype Value = Primitive(text: string) | Null | Object(entries: seq<Entry>)

  /** One enumerable property, in the order a for..in loop visits it. */
  datatype Entry = Entry(key: string, value: Value)

  /** The properties a for..in loop over the value visits. */
  function Members(v: Value): seq<Entry>
  {
    if v.Object? then v.entries else []
  }

  function ValueSize(v: Value): (n: nat)
    ensures n >= 1 && (v.Object? ==> n > EntriesSize(v.entries))
  {
    if v.Object? then 1 + EntriesSize(v.entries) else 1
  }

  function EntriesSize(es: seq<Entry>): (n: nat)
    ensures es != [] ==> n >= ValueSize(es[0].value) && n > EntriesSize(es[1..])
  {
    if es == [] then 0 else ValueSize(es[0].value) + EntriesSize(es[1..])
  }

  /** Each value inside a list of properties is smaller than the list. */
  lemma {:induction false} EntrySmaller(es: seq<Entry>, i: nat)
    requires i < |es|
    ensures ValueSize(es[i].value) <= EntriesSize(es)
    decreases i
  {
    if i > 0 {
      EntrySmaller(es[1..], i - 1);
    }
  }

  /**
   * get_prefix: the path of `key` below `prefix`; `numeric` says whether
   * the key is a number (isNaN(key) is false).
   */
  function GetPrefix(numeric: string -> bool, key: string, prefix: string): (p: string)
    ensures prefix == [] ==> p == key
    ensures prefix != [] ==>
              && |p| == |prefix| + |key| + (if numeric(key) then 2 else 1)
              && prefix < p && key <= p[|prefix| + 1..]
  {
    if |prefix| > 0 then
      if !numeric(key) then prefix + "/" + key else prefix + "[" + key + "]"
    else key
  }

  /**
   * With no prefix the path is the key itself, numeric or not. Below a
   * non-empty prefix it is the prefix, then '/' and the key, or, for a
   * numeric key, '[', the key and ']'.
   */
  lemma GetPrefixShape(numeric: string -> bool, key: string, prefix: string)
    ensures var p := GetPrefix(numeric, key, prefix);
            var n := |prefix|;
            && (prefix == [] ==> p == key)
            && (prefix != [] ==>
                  && n + 1 + |key| <= |p| && p[..n] == prefix
                  && p[n] == (if numeric(key) then '[' else '/')
                  && p[n + 1..n + 1 + |key|] == key
                  && p[n + 1 + |key|..] == (if numeric(key) then "]" else ""))
  {
    var p := GetPrefix(numeric, key, prefix);
    var n := |prefix|;
    if prefix != [] {
      assert p[..n] == prefix;
      assert p[n + 1..n + 1 + |key|] == key;
      assert p[n + 1 + |key|..] == (if numeric(key) then "]" else "");
    }
  }

  /** Under one prefix, different keys get different paths. */
  lemma GetPrefixInjective(numeric: string -> bool, k1: string, k2: string, prefix: string)
    requires GetPrefix(numeric, k1, prefix) == GetPrefix(numeric, k2, prefix)
    ensures k1 == k2
  {
    GetPrefixShape(numeric, k1, prefix);
    GetPrefixShape(numeric, k2, prefix);
    var p := GetPrefix(numeric, k1, prefix);
    if prefix != [] {
      var n := |prefix|;
      assert numeric(k1) == numeric(k2) by {
        assert p[n] == (if numeric(k1) then '[' else '/');
        assert p[n] == (if numeric(k2) then '[' else '/');
      }
      assert |p[n + 1 + |k1|..]| == |p[n + 1 + |k2|..]|;
    }
  }

  // ------------------------------------------------ populate_path_values

  /**
   * The field table after populate_path_values over the properties `es`
   * below `prefix`, starting from `fields`: an object or null is entered
   * with the extended prefix; anything else is stored at its path.
   */
  function PopulateFrom(numeric: string -> bool, fields: map<string, Value>, es: seq<Entry>, prefix: string)
    : (r: map<string, Value>)
    ensures fields.Keys <= r.Keys
    ensures forall path | path in r && (path !in fields || r[path] != fields[path]) :: r[path].Primitive?
    decreases EntriesSize(es)
  {
    if es == [] then fields
    else
      var e := es[0];
      var p := GetPrefix(numeric, e.key, prefix);
      var next := match e.value
        case Object(sub) => PopulateFrom(numeric, fields, sub, p)
        case Null => fields
        case Primitive(_) => fields[p := e.value];
      PopulateFrom(numeric, next, es[1..], prefix)
  }

  /** populate_path_values over the value `v`. */
  function Populate(numeric: string -> bool, fields: map<string, Value>, v: Value, prefix: string): (r: map<string, Value>)
    ensures !v.Object? ==> r == fields
    ensures fields.Keys <= r.Keys
    ensures forall path | path in r && (path !in fields || r[path] != fields[path]) :: r[path].Primitive?
  {
    PopulateFrom(numeric, fields, Members(v), prefix)
  }

  /**
   * extract_fields: a form configuration that is undefined or null leaves
   * the table as it is; any other is flattened with an empty prefix.
   */
  function Extracted(numeric: string -> bool, fields: map<string, Value>, form: Option<Value>): (r: map<string, Value>)
    ensures form.None? || !form.value.Object? ==> r == fields
    ensures fields.Keys <= r.Keys
    ensures forall path | path in r && (path !in fields || r[path] != fields[path]) :: r[path].Primitive?
  {
    if form.None? || form.value.Null? then fields else Populate(numeric, fields, form.value, "")
  }

  // ------------------------------------------------ the leaves, declaratively

  /** The leaves below `prefix`, in visiting order: each non-object, non-null value at its full path. */
  function Leaves(numeric: string -> bool, es: seq<Entry>, prefix: string): (ls: seq<Entry>)
    decreases EntriesSize(es)
  {
    if es == [] then []
    else
      var e := es[0];
      var p := GetPrefix(numeric, e.key, prefix);
      var here := match e.value
        case Object(sub) => Leaves(numeric, sub, p)
        case Null => []
        case Primitive(_) => [Entry(p, e.value)];
      here + Leaves(numeric, es[1..], prefix)
  }

  /** Storing each leaf in turn, later ones overwriting earlier ones. */
  function Store(fields: map<string, Value>, ls: seq<Entry>): map<string, Value>
    decreases ls
  {
    if ls == [] then fields else Store(fields[ls[0].key := ls[0].value], ls[1..])
  }

  lemma {:induction false} StoreAppend(fields: map<string, Value>, a: seq<Entry>, b: seq<Entry>)
    ensures Store(fields, a + b) == Store(Store(fields, a), b)
    decreases a
  {
    if a != [] {
      StoreAppend(fields[a[0].key := a[0].value], a[1..], b);
      assert (a + b)[0] == a[0] && (a + b)[1..] == a[1..] + b;
    } else {
      assert a + b == b;
    }
  }

  /** populate_path_values stores exactly the leaves, in visiting order. */
  lemma {:induction false} PopulateStoresLeaves(numeric: string -> bool, fields: map<string, Value>, es: seq<Entry>, prefix: string)
    ensures PopulateFrom(numeric, fields, es, prefix) == Store(fields, Leaves(numeric, es, prefix))
    decreases EntriesSize(es)
  {
    if es != [] {
      var e := es[0];
      var p := GetPrefix(numeric, e.key, prefix);
      var here := match e.value
        case Object(sub) => Leaves(numeric, sub, p)
        case Null => []
        case Primitive(_) => [Entry(p, e.value)];
      var next := match e.value
        case Object(sub) => PopulateFrom(numeric, fields, sub, p)
        case Null => fields
        case Primitive(_) => fields[p := e.value];
      if e.value.Object? {
        PopulateStoresLeaves(numeric, fields, e.value.entries, p);
      }
      assert next == Store(fields, here);
      PopulateStoresLeaves(numeric, next, es[1..], prefix);
      StoreAppend(fields, here, Leaves(numeric, es[1..], prefix));
    }
  }

  /** No leaf is an object or null, and every leaf path lies below a non-empty prefix. */
  lemma {:induction false} LeavesArePrimitive(numeric: string -> bool, es: seq<Entry>, prefix: string)
    ensures forall i | 0 <= i < |Leaves(numeric, es, prefix)| ::
              && Leaves(numeric, es, prefix)[i].value.Primitive?
              && (prefix != [] ==> prefix < Leaves(numeric, es, prefix)[i].key)
    decreases EntriesSize(es)
  {
    if es != [] {
      var e := es[0];
      var p := GetPrefix(numeric, e.key, prefix);
      if prefix != [] {
        BelowPrefix(numeric, e.key, prefix);
      }
      var rest := Leaves(numeric, es[1..], prefix);
      LeavesArePrimitive(numeric, es[1..], prefix);
      if e.value.Object? {
        var sub := Leaves(numeric, e.value.entries, p);
        LeavesArePrimitive(numeric, e.value.entries, p);
        assert Leaves(numeric, es, prefix) == sub + rest;
        forall i | 0 <= i < |sub| && prefix != [] ensures prefix < sub[i].key {
          if p != [] {
            PrefixTransitive(prefix, p, sub[i].key);
          }
        }
      }
    }
  }

  lemma PrefixTransitive(a: string, b: string, c: string)
    requires a < b && b < c
    ensures a < c
  {
    assert c[..|a|] == b[..|a|];
  }

  /** A path below a non-empty prefix is longer than the prefix and starts with it. */
  lemma BelowPrefix(numeric: string -> bool, key: string, prefix: string)
    requires prefix != []
    ensures prefix < GetPrefix(numeric, key, prefix)
  {
    GetPrefixShape(numeric, key, prefix);
  }

  /** A path that no leaf has keeps what it held before, or stays absent. */
  lemma {:induction false} StoreUntouched(fields: map<string, Value>, ls: seq<Entry>, path: string)
    requires forall i | 0 <= i < |ls| :: ls[i].key != path
    ensures path in Store(fields, ls) <==> path in fields
    ensures path in fields ==> Store(fields, ls)[path] == fields[path]
    decreases ls
  {
    if ls != [] {
      assert ls[0].key != path;
      forall i | 0 <= i < |ls[1..]| ensures ls[1..][i].key != path {
        assert ls[1..][i] == ls[i + 1];
      }
      StoreUntouched(fields[ls[0].key := ls[0].value], ls[1..], path);
    }
  }

  /** After storing the leaves, a path holds the value of the last leaf with that path. */
  lemma {:induction false} StoreLast(fields: map<string, Value>, ls: seq<Entry>, i: nat, path: string)
    requires i < |ls| && ls[i].key == path
    requires forall j | i < j < |ls| :: ls[j].key != path
    ensures path in Store(fields, ls) && Store(fields, ls)[path] == ls[i].value
    decreases ls
  {
    var f := fields[ls[0].key := ls[0].value];
    forall j | i <= j < |ls[1..]| ensures ls[1..][j].key != path {
      assert ls[1..][j] == ls[j + 1];
    }
    if i == 0 {
      StoreUntouched(f, ls[1..], path);
    } else {
      assert ls[1..][i - 1] == ls[i];
      StoreLast(f, ls[1..], i - 1, path);
    }
  }

  /**
   * The table only gains or overwrites entries; a path that gains one is
   * the path of a leaf, and holds a value that is neither an object nor
   * null.
   */
  lemma PopulateOnlyStoresLeaves(numeric: string -> bool, fields: map<string, Value>, v: Value, prefix: string, path: string)
    ensures var after := Populate(numeric, fields, v, prefix);
            var ls := Leaves(numeric, Members(v), prefix);
            && (path in fields ==> path in after)
            && (path in after <==> path in fields || exists i | 0 <= i < |ls| :: ls[i].key == path)
            && ((forall i | 0 <= i < |ls| :: ls[i].key != path) && path in fields ==> after[path] == fields[path])
            && ((exists i | 0 <= i < |ls| :: ls[i].key == path) ==> after[path].Primitive?)
  {
    var ls := Leaves(numeric, Members(v), prefix);
    PopulateStoresLeaves(numeric, fields, Members(v), prefix);
    LeavesArePrimitive(numeric, Members(v), prefix);
    var i := LastBefore(ls, path, |ls|);
    if i >= 0 {
      StoreLast(fields, ls, i, path);
    } else {
      StoreUntouched(fields, ls, path);
    }
  }

  /** The index of the last of the first `n` leaves with the given path, or -1 when none has it. */
  function LastBefore(ls: seq<Entry>, path: string, n: nat): (i: int)
    requires n <= |ls|
    ensures -1 <= i < n && (i >= 0 ==> ls[i].key == path)
    ensures forall j | i < j < n :: ls[j].key != path
  {
    if n == 0 then -1
    else if ls[n - 1].key == path then n - 1
    else LastBefore(ls, path, n - 1)
  }

  /**
   * Two leaves can share a path: a top-level key "a/b" and a key "b" inside
   * "a" both land on "a/b", and the later one is what the table keeps.
   */
  lemma SharedPathLaterWins(numeric: string -> bool)
    requires !numeric("a") && !numeric("b")
    ensures var form := Object([Entry("a", Object([Entry("b", Primitive("1"))])), Entry("a/b", Primitive("2"))]);
            Populate(numeric, map[], form, "") == map["a/b" := Primitive("2")]
  {
    assert GetPrefix(numeric, "b", "a") == "a/b";
  }

  /**
   * extract_fields on a fresh feed: nothing when the form configuration is
   * undefined or null, and otherwise only leaf values, never an object or
   * null.
   */
  lemma ExtractedHoldsLeaves(numeric: string -> bool, form: Option<Value>)
    ensures form.None? || form.value.Null? ==> Extracted(numeric, map[], form) == map[]
    ensures forall path | path in Extracted(numeric, map[], form) :: Extracted(numeric, map[], form)[path].Primitive?
  {
    if form.Some? && !form.value.Null? {
      forall path | path in Extracted(numeric, map[], form)
        ensures Extracted(numeric, map[], form)[path].Primitive?
      {
        PopulateOnlyStoresLeaves(numeric, map[], form.value, "", path);
      }
    }
  }

  // ------------------------------------------------ the feed object

  class FormFeed {
    /** Whether a key is numeric: !isNaN(key). */
    const numeric: string -> bool
    /** fields: the field table, path to value. */
    var fields: map<string, Value>

    /** The constructor: an empty table, then extract_fields over the form configuration. */
    constructor (numeric: string -> bool, form: Option<Value>)
      ensures this.numeric == numeric
      ensures fields == Extracted(numeric, map[], form)
    {
      this.numeric := numeric;
      fields := map[];
      new;
      ExtractFields(form);
    }

    /** extract_fields: flattens the form configuration unless it is undefined or null. */
    method ExtractFields(form: Option<Value>)
      modifies this
      ensures fields == Extracted(numeric, old(fields), form)
    {
      if form.Some? && !form.value.Null? {
        PopulatePathValues(form.value, "");
      }
    }

    /**
     * populate_path_values: visits the properties of `elements`, entering
     * objects (and null) with the extended prefix and storing every other
     * value at its path.
     */
    method PopulatePathValues(elements: Value, prefix: string)
      modifies this
      ensures fields == Populate(numeric, old(fields), elements, prefix)
      decreases ValueSize(elements)
    {
      var es := Members(elements);
      var i := 0;
      while i < |es|
        invariant 0 <= i <= |es|
        invariant Populate(numeric, old(fields), elements, prefix) == PopulateFrom(numeric, fields, es[i..], prefix)
      {
        var element := es[i].key;
        var value := es[i].value;
        assert es[i..][1..] == es[i + 1..];
        if value.Object? || value.Null? {
          var p := GetPrefix(numeric, element, prefix);
          EntrySmaller(es, i);
          PopulatePathValues(value, p);
        } else {
          var p := GetPrefix(numeric, element, prefix);
          fields := fields[p := value];
        }
        i := i + 1;
      }
    }
  }
}
