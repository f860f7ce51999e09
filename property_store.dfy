/**
 * The property store every XNAT object keeps: a map from string keys to
 * string values that, like Qt's QMap, is iterated in ascending key order.
 * It is represented as an association list whose keys strictly ascend, so
 * the order of the list is the iteration order and each key occurs once.
 */
module PropertyStore {

  datatype Entry = Entry(key: string, value: string)

  type Properties = seq<Entry>

  /** The key order of the map (QString's operator<): lexicographic on characters (Unicode scalar values), a proper prefix first. */
  predicate KeyLess(a: string, b: string)
    decreases |a|
  {
    if |a| == 0 then |b| > 0
    else if |b| == 0 then false
    else if a[0] != b[0] then a[0] < b[0]
    else KeyLess(a[1..], b[1..])
  }

  lemma {:induction false} KeyLessIrreflexive(a: string)
    ensures !KeyLess(a, a)
    decreases |a|
  {
    if |a| > 0 {
      KeyLessIrreflexive(a[1..]);
    }
  }

  lemma {:induction false} KeyLessTransitive(a: string, b: string, c: string)
    requires KeyLess(a, b) && KeyLess(b, c)
    ensures KeyLess(a, c)
    decreases |a|
  {
    if |a| > 0 && a[0] == b[0] && b[0] == c[0] {
      KeyLessTransitive(a[1..], b[1..], c[1..]);
    }
  }

  lemma {:induction false} KeyLessTotal(a: string, b: string)
    ensures a == b || KeyLess(a, b) || KeyLess(b, a)
    decreases |a|
  {
    if |a| > 0 && |b| > 0 && a[0] == b[0] {
      KeyLessTotal(a[1..], b[1..]);
      if a[1..] == b[1..] {
        assert a == [a[0]] + a[1..] && b == [b[0]] + b[1..];
      }
    }
  }

  /** Keys strictly ascend: the list is in iteration order and has no duplicate key. */
  ghost predicate Ordered(p: Properties)
  {
    forall i, j :: 0 <= i < j < |p| ==> KeyLess(p[i].key, p[j].key)
  }

  lemma OrderedTail(p: Properties)
    requires Ordered(p) && p != []
    ensures Ordered(p[1..])
  {
  }

  /** The abstract map the list stands for (the first entry for a key wins). */
  ghost function AsMap(p: Properties): map<string, string>
  {
    if p == [] then map[] else AsMap(p[1..])[p[0].key := p[0].value]
  }

  lemma {:induction false} AsMapKeys(p: Properties, key: string)
    ensures key in AsMap(p) <==> exists i :: 0 <= i < |p| && p[i].key == key
  {
    if p != [] {
      AsMapKeys(p[1..], key);
      if key in AsMap(p[1..]) {
        var i :| 0 <= i < |p[1..]| && p[1..][i].key == key;
        assert p[i + 1].key == key;
      }
      if exists i :: 0 <= i < |p| && p[i].key == key {
        var i :| 0 <= i < |p| && p[i].key == key;
        if i > 0 {
          assert p[1..][i - 1].key == key;
        }
      }
    }
  }

  /** In an ordered list every entry is the map's binding of its key. */
  lemma {:induction false} OrderedEntryInMap(p: Properties, i: int)
    requires Ordered(p) && 0 <= i < |p|
    ensures p[i].key in AsMap(p) && AsMap(p)[p[i].key] == p[i].value
  {
    if i > 0 {
      OrderedTail(p);
      OrderedEntryInMap(p[1..], i - 1);
      assert KeyLess(p[0].key, p[i].key);
      KeyLessIrreflexive(p[0].key);
    }
  }

  /** QMap::value: the value bound to key, or the empty string when there is none. */
  function Lookup(p: Properties, key: string): (v: string)
    ensures v == if key in AsMap(p) then AsMap(p)[key] else ""
  {
    if p == [] then ""
    else if p[0].key == key then p[0].value
    else Lookup(p[1..], key)
  }

  /** QMap::insert: rebinds an existing key in place, or adds it at its ordered position. */
  function Insert(p: Properties, key: string, value: string): (r: Properties)
    ensures forall i :: 0 <= i < |r| ==> r[i].key == key || r[i] in p
  {
    if p == [] then [Entry(key, value)]
    else if p[0].key == key then [Entry(key, value)] + p[1..]
    else if KeyLess(key, p[0].key) then [Entry(key, value)] + p
    else [p[0]] + Insert(p[1..], key, value)
  }

  lemma {:induction false} InsertAsMap(p: Properties, key: string, value: string)
    ensures AsMap(Insert(p, key, value)) == AsMap(p)[key := value]
  {
    var r := Insert(p, key, value);
    if p == [] {
    } else if p[0].key == key {
      assert r[1..] == p[1..];
    } else if KeyLess(key, p[0].key) {
      assert r[1..] == p;
    } else {
      assert r[1..] == Insert(p[1..], key, value);
      InsertAsMap(p[1..], key, value);
    }
  }

  lemma {:induction false} InsertOrdered(p: Properties, key: string, value: string)
    requires Ordered(p)
    ensures Ordered(Insert(p, key, value))
  {
    var r := Insert(p, key, value);
    if p == [] {
    } else if p[0].key == key {
      forall i, j | 0 <= i < j < |r| ensures KeyLess(r[i].key, r[j].key) {
        assert r[i].key == p[i].key && r[j].key == p[j].key;
      }
    } else if KeyLess(key, p[0].key) {
      forall i, j | 0 <= i < j < |r| ensures KeyLess(r[i].key, r[j].key) {
        assert r[j] == p[j - 1];
        if i > 0 {
          assert r[i] == p[i - 1];
        } else if j > 1 {
          KeyLessTransitive(key, p[0].key, p[j - 1].key);
        }
      }
    } else {
      var rest := Insert(p[1..], key, value);
      OrderedTail(p);
      InsertOrdered(p[1..], key, value);
      KeyLessTotal(key, p[0].key);
      forall i, j | 0 <= i < j < |r| ensures KeyLess(r[i].key, r[j].key) {
        assert r[j] == rest[j - 1];
        if i > 0 {
          assert r[i] == rest[i - 1];
        } else if rest[j - 1].key != key {
          var k :| 0 <= k < |p[1..]| && p[1..][k] == rest[j - 1];
          assert p[k + 1] == rest[j - 1];
        }
      }
    }
  }

  /** The getter/setter law of the store: a key reads back what was last set, others are untouched. */
  lemma LookupInsert(p: Properties, key: string, value: string, other: string)
    ensures Lookup(Insert(p, key, value), other) == if other == key then value else Lookup(p, other)
  {
  }
}
