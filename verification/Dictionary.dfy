/** A dictionary in an open table of slots, searched from the start and filtered by hash. */
module Dictionary {
  import opened Wrappers

  type Text = Option<string>

  /** The slots and what they amount to, for the hash function `h`. */
  datatype View = View(h: string -> nat, keys: seq<Text>, vals: seq<Text>, hashes: seq<nat>,
                       contents: map<string, Text>)

  datatype Aspect = Unique | Hashed | Kept | Listed

  ghost predicate Sound(v: View, a: Aspect)
    requires |v.keys| == |v.vals| == |v.hashes|
  {
    match a
    case Unique => forall i, j :: 0 <= i < j < |v.keys| && v.keys[i].Some? ==> v.keys[i] != v.keys[j]
    case Hashed => forall i :: 0 <= i < |v.keys| && v.keys[i].Some? ==> v.hashes[i] == v.h(v.keys[i].value)
    case Kept => forall i :: 0 <= i < |v.keys| && v.keys[i].Some? ==>
      v.keys[i].value in v.contents && v.contents[v.keys[i].value] == v.vals[i]
    case Listed => forall k :: k in v.contents ==> Some(k) in v.keys
  }

  /** No key is in two slots, hashes are those of the keys, and the slots hold exactly the contents. */
  ghost predicate Good(v: View) {
    && 0 < |v.keys| == |v.vals| == |v.hashes|
    && forall a {:trigger Sound(v, a)} :: Sound(v, a)
  }

  ghost function Blank(): (v: View)
    ensures Good(v)
  {
    View(_ => 0, [None], [None], [0], map[])
  }

  type GoodView = v: View | Good(v) ghost witness Blank()

  function Occupied(keys: seq<Text>): (n: nat)
    ensures n <= |keys|
  {
    if keys == [] then 0 else Occupied(keys[..|keys| - 1]) + if keys[|keys| - 1].Some? then 1 else 0
  }

  lemma {:induction false} OccupiedSet(keys: seq<Text>, i: nat, k: Text)
    requires i < |keys|
    ensures Occupied(keys[i := k]) + (if keys[i].Some? then 1 else 0) == Occupied(keys) + if k.Some? then 1 else 0
  {
    var m := |keys| - 1;
    if i < m {
      OccupiedSet(keys[..m], i, k);
      assert keys[i := k][..m] == keys[..m][i := k];
    } else {
      assert keys[i := k][..m] == keys[..m];
    }
  }

  function Copies<T>(n: nat, blank: T): (s: seq<T>)
    ensures |s| == n && forall i :: 0 <= i < n ==> s[i] == blank
  {
    seq(n, _ => blank)
  }

  lemma {:induction false} OccupiedNone(n: nat)
    ensures Occupied(Copies(n, None)) == 0
  {
    if n > 0 {
      assert Copies<Text>(n, None)[..n - 1] == Copies(n - 1, None);
      OccupiedNone(n - 1);
    }
  }

  lemma {:induction false} OccupiedAppend(keys: seq<Text>, more: seq<Text>)
    ensures Occupied(keys + more) == Occupied(keys) + Occupied(more)
  {
    if more == [] {
      assert keys + more == keys;
    } else {
      var m := |more| - 1;
      assert (keys + more)[..|keys + more| - 1] == keys + more[..m];
      OccupiedAppend(keys, more[..m]);
    }
  }

  /** Unless every slot is occupied there is an empty one. */
  lemma {:induction false} SomeEmpty(keys: seq<Text>)
    requires Occupied(keys) < |keys|
    ensures exists i :: 0 <= i < |keys| && keys[i] == None
  {
    var m := |keys| - 1;
    if keys[m].Some? {
      SomeEmpty(keys[..m]);
      var i :| 0 <= i < m && keys[..m][i] == None;
      assert keys[i] == None;
    }
  }

  lemma {:induction false} AllEmpty(keys: seq<Text>)
    requires Occupied(keys) == 0
    ensures forall i :: 0 <= i < |keys| ==> keys[i] == None
  {
    if keys != [] {
      var m := |keys| - 1;
      AllEmpty(keys[..m]);
      assert forall i :: 0 <= i < m ==> keys[i] == keys[..m][i];
    }
  }

  ghost function KeySet(keys: seq<Text>): set<string> {
    set i | 0 <= i < |keys| && keys[i].Some? :: keys[i].value
  }

  lemma KeySetLast(keys: seq<Text>)
    requires keys != [] && forall i, j :: 0 <= i < j < |keys| && keys[i].Some? ==> keys[i] != keys[j]
    ensures var m := |keys| - 1;
            |KeySet(keys)| == |KeySet(keys[..m])| + if keys[m].Some? then 1 else 0
  {
    hide KeySet;
    KeySetNext(keys);
    if keys[|keys| - 1].Some? {
      KeyIsNew(keys);
    }
  }

  lemma KeySetNext(keys: seq<Text>)
    requires keys != []
    ensures var m := |keys| - 1;
            KeySet(keys) == KeySet(keys[..m]) + if keys[m].Some? then {keys[m].value} else {}
  {
    var m := |keys| - 1;
    forall k | k in KeySet(keys[..m]) ensures k in KeySet(keys) {
      assert Some(k) in keys[..m];
    }
  }

  lemma KeyIsNew(keys: seq<Text>)
    requires keys != [] && forall i, j :: 0 <= i < j < |keys| && keys[i].Some? ==> keys[i] != keys[j]
    requires keys[|keys| - 1].Some?
    ensures keys[|keys| - 1].value !in KeySet(keys[..|keys| - 1])
  {
  }

  /** The number of occupied slots is the number of keys. */
  lemma {:induction false} OccupiedIsSize(keys: seq<Text>)
    requires forall i, j :: 0 <= i < j < |keys| && keys[i].Some? ==> keys[i] != keys[j]
    ensures Occupied(keys) == |KeySet(keys)|
  {
    if keys != [] {
      var m := |keys| - 1;
      OccupiedIsSize(keys[..m]);
      KeySetLast(keys);
    }
  }

  lemma SizeIsOccupied(v: View)
    requires Good(v)
    ensures |v.contents| == Occupied(v.keys)
  {
    assert Sound(v, Unique) && Sound(v, Kept) && Sound(v, Listed);
    OccupiedIsSize(v.keys);
    assert KeySet(v.keys) == v.contents.Keys;
  }

  // ----- what lookups see

  /** What looking up `q` returns: the value kept with it, which may itself be absent, or else `def`. */
  function Lookup(c: map<string, Text>, q: string, def: Text): Text {
    if q in c then c[q] else def
  }

  /** Setting a key to nothing looks like deleting it exactly when the caller's default is nothing, too. */
  lemma NoneDeletesIff(c: map<string, Text>, k: string, def: Text)
    ensures (forall q :: Lookup(c[k := None], q, def) == Lookup(c - {k}, q, def)) <==> def == None
  {
    assert Lookup(c[k := None], k, def) == None && Lookup(c - {k}, k, def) == def;
  }

  datatype Change = SetTo(k: string, v: Text) | Delete(k: string)

  /** The contents after the changes `cs`, the first one first. */
  function Changed(c: map<string, Text>, cs: seq<Change>): map<string, Text>
    decreases |cs|
  {
    if cs == [] then c else
      match cs[0]
      case SetTo(k, v) => Changed(c[k := v], cs[1..])
      case Delete(k) => Changed(c - {k}, cs[1..])
  }

  /** No two lookups with default `def` tell `a` from `b`. */
  ghost predicate LooksLike(a: map<string, Text>, b: map<string, Text>, def: Text) {
    forall q :: Lookup(a, q, def) == Lookup(b, q, def)
  }

  lemma LookupSet(c: map<string, Text>, k: string, v: Text, q: string, def: Text)
    ensures Lookup(c[k := v], q, def) == if q == k then v else Lookup(c, q, def)
  {
  }

  lemma SetKeepsLooks(a: map<string, Text>, b: map<string, Text>, k: string, v: Text, def: Text)
    requires LooksLike(a, b, def)
    ensures LooksLike(a[k := v], b[k := v], def)
  {
    var a', b' := a[k := v], b[k := v];
    forall q ensures Lookup(a', q, def) == Lookup(b', q, def) {
      LookupSet(a, k, v, q, def);
      LookupSet(b, k, v, q, def);
    }
  }

  lemma DeleteKeepsLooks(a: map<string, Text>, b: map<string, Text>, k: string, def: Text)
    requires LooksLike(a, b, def)
    ensures LooksLike(a - {k}, b - {k}, def)
  {
    forall q ensures Lookup(a - {k}, q, def) == Lookup(b - {k}, q, def) {
      assert Lookup(a, q, def) == Lookup(b, q, def);
    }
  }

  lemma {:induction false} ChangesKeepLooks(a: map<string, Text>, b: map<string, Text>, cs: seq<Change>, def: Text)
    requires LooksLike(a, b, def)
    ensures LooksLike(Changed(a, cs), Changed(b, cs), def)
    decreases |cs|
  {
    if cs != [] {
      match cs[0]
      case SetTo(k, v) =>
        SetKeepsLooks(a, b, k, v, def);
        ChangesKeepLooks(a[k := v], b[k := v], cs[1..], def);
      case Delete(k) =>
        DeleteKeepsLooks(a, b, k, def);
        ChangesKeepLooks(a - {k}, b - {k}, cs[1..], def);
    }
  }

  /** No lookup with default `def` ever tells `a` from `b`, whatever is set and deleted in both. */
  ghost predicate AlwaysLooksLike(a: map<string, Text>, b: map<string, Text>, def: Text) {
    forall cs :: LooksLike(Changed(a, cs), Changed(b, cs), def)
  }

  /** The same for all later lookups: a key set to nothing and a deleted one can be told apart, now or later, exactly
      by those whose default is something. */
  lemma NoneDeletesForEverIff(c: map<string, Text>, k: string, def: Text)
    ensures AlwaysLooksLike(c[k := None], c - {k}, def) <==> def == None
  {
    NoneDeletesIff(c, k, def);
    if def == None {
      forall cs ensures LooksLike(Changed(c[k := None], cs), Changed(c - {k}, cs), def) {
        ChangesKeepLooks(c[k := None], c - {k}, cs, def);
      }
    } else {
      var cs: seq<Change> := [];
      assert !LooksLike(Changed(c[k := None], cs), Changed(c - {k}, cs), def);
    }
  }

  /** A key set to nothing is counted, a deleted one is not. */
  lemma NoneIsCounted(c: map<string, Text>, k: string)
    ensures |c[k := None]| == |c - {k}| + 1
  {
    assert c[k := None].Keys == (c - {k}).Keys + {k};
  }

  // ----- the changes, on values

  ghost function WithRoom(v: View): (w: View)
    requires Good(v)
    ensures Good(w) && w.contents == v.contents && w.h == v.h
  {
    var n := |v.keys|;
    var w := View(v.h, v.keys + Copies(n, None), v.vals + Copies(n, None), v.hashes + Copies(n, 0), v.contents);
    assert Sound(v, Unique) && Sound(v, Hashed) && Sound(v, Kept) && Sound(v, Listed);
    assert Sound(w, Unique) && Sound(w, Hashed) && Sound(w, Kept) && Sound(w, Listed);
    w
  }

  ghost function WithValue(v: View, i: nat, val: Text): (w: View)
    requires Good(v) && i < |v.keys| && v.keys[i].Some?
    ensures Good(w) && w.contents == v.contents[v.keys[i].value := val] && w.h == v.h
  {
    var w := v.(vals := v.vals[i := val], contents := v.contents[v.keys[i].value := val]);
    assert Sound(v, Unique) && Sound(v, Hashed) && Sound(v, Kept) && Sound(v, Listed);
    assert Sound(w, Unique) && Sound(w, Hashed) && Sound(w, Kept) && Sound(w, Listed);
    w
  }

  ghost function WithKey(v: View, i: nat, key: string, val: Text): (w: View)
    requires Good(v) && i < |v.keys| && v.keys[i].None? && key !in v.contents
    ensures Good(w) && w.contents == v.contents[key := val] && w.h == v.h
  {
    var w := View(v.h, v.keys[i := Some(key)], v.vals[i := val], v.hashes[i := v.h(key)], v.contents[key := val]);
    assert Sound(v, Unique) && Sound(v, Hashed) && Sound(v, Kept) && Sound(v, Listed);
    ListedStays(v.keys, i, Some(key), v.contents.Keys);
    assert w.keys[i] == Some(key);
    assert Sound(w, Unique) && Sound(w, Hashed) && Sound(w, Kept) && Sound(w, Listed);
    w
  }

  ghost function Without(v: View, i: nat): (w: View)
    requires Good(v) && i < |v.keys| && v.keys[i].Some?
    ensures Good(w) && w.contents == v.contents - {v.keys[i].value} && w.h == v.h
  {
    var w := View(v.h, v.keys[i := None], v.vals[i := None], v.hashes[i := 0], v.contents - {v.keys[i].value});
    assert Sound(v, Unique) && Sound(v, Hashed) && Sound(v, Kept) && Sound(v, Listed);
    ListedStays(v.keys, i, None, w.contents.Keys);
    assert Sound(w, Unique) && Sound(w, Hashed) && Sound(w, Kept) && Sound(w, Listed);
    w
  }

  /** Changing slot `i` leaves the other keys listed. */
  lemma ListedStays(keys: seq<Text>, i: nat, k: Text, names: set<string>)
    requires i < |keys| && forall s :: s in names ==> Some(s) in keys && Some(s) != keys[i]
    ensures forall s :: s in names ==> Some(s) in keys[i := k]
  {
    forall s | s in names ensures Some(s) in keys[i := k] {
      var j :| 0 <= j < |keys| && keys[j] == Some(s);
      assert keys[i := k][j] == Some(s);
    }
  }

  /** An array twice as long, `blank` where `a` ends. */
  method Doubled<T>(a: array<T>, blank: T) returns (b: array<T>)
    ensures fresh(b) && b[..] == a[..] + Copies(a.Length, blank)
  {
    b := new T[a.Length * 2](_ => blank);
    forall i | 0 <= i < a.Length {
      b[i] := a[i];
    }
  }

  class Dictionary {
    const h: string -> nat
    var n: nat
    var size: nat
    var val: array<Text>
    var key: array<Text>
    var hash: array<nat>
    ghost var view: GoodView

    ghost predicate Holds(v: View)
      reads this, val, key, hash
    {
      && val != key && size == val.Length == key.Length == hash.Length
      && key[..] == v.keys && val[..] == v.vals && hash[..] == v.hashes
    }

    ghost predicate Valid()
      reads this, val, key, hash
    {
      Holds(view) && view.h == h && n == Occupied(view.keys)
    }

    /** At least 128 slots. */
    constructor (size: nat, h: string -> nat)
      ensures Valid() && view.contents == map[] && this.h == h && fresh(val) && fresh(key) && fresh(hash)
    {
      var slots := if size < 128 then 128 else size;
      this.h := h;
      n, this.size := 0, slots;
      val := new Text[slots](_ => None);
      key := new Text[slots](_ => None);
      hash := new nat[slots](_ => 0);
      ghost var v := View(h, Copies(slots, None), Copies(slots, None), Copies(slots, 0), map[]);
      assert Sound(v, Unique) && Sound(v, Hashed) && Sound(v, Kept) && Sound(v, Listed);
      view := v;
      OccupiedNone(slots);
    }

    /** The slot of `k`, or `size`. */
    method Find(k: string) returns (i: nat)
      requires Valid()
      ensures i < size ==> view.keys[i] == Some(k)
      ensures i == size <==> k !in view.contents
      ensures i <= size
    {
      assert Sound(view, Hashed) && Sound(view, Listed) && Sound(view, Kept);
      var code := h(k);
      i := 0;
      while i < size
        invariant 0 <= i <= size && forall j :: 0 <= j < i ==> view.keys[j] != Some(k)
      {
        assert key[i] == view.keys[i] && hash[i] == view.hashes[i];
        if key[i].Some? && code == hash[i] && k == key[i].value {
          break;
        }
        i := i + 1;
      }
    }

    /** The value of `k`, which may itself be absent, or else `def`. */
    method Get(k: string, def: Text) returns (r: Text)
      requires Valid()
      ensures r == Lookup(view.contents, k, def)
    {
      assert Sound(view, Kept);
      var i := Find(k);
      r := if i < size then val[i] else def;
    }

    method Grow()
      requires Valid()
      modifies this
      ensures Valid() && view == WithRoom(old(view)) && n < size
      ensures fresh(val) && fresh(key) && fresh(hash)
    {
      hide Sound, Occupied, Lookup, Copies;
      var newVal := Doubled(val, None);
      var newKey := Doubled(key, None);
      var newHash := Doubled(hash, 0);
      size := size * 2;
      val, key, hash := newVal, newKey, newHash;
      OccupiedAppend(view.keys, Copies(|view.keys|, None));
      OccupiedNone(|view.keys|);
      view := WithRoom(view);
    }

    /** The first empty slot from `n` on, wrapping round. */
    method EmptySlot() returns (i: nat)
      requires Valid() && n < size
      ensures i < size && view.keys[i] == None
    {
      SomeEmpty(view.keys);
      ghost var e :| 0 <= e < |view.keys| && view.keys[e] == None;
      i := n;
      while key[i].Some?
        invariant 0 <= i < size
        decreases if i <= e then e - i else e + size - i
      {
        i := i + 1;
        if i == size {
          i := 0;
        }
      }
    }

    /** The key counts among the `n` used slots, whether its value is there or not. */
    method Set(k: string, v: Text)
      requires Valid()
      modifies this, val, key, hash
      ensures Valid() && view.contents == old(view).contents[k := v] && n == |view.contents|
      ensures (val == old(val) && key == old(key) && hash == old(hash)) || (fresh(val) && fresh(key) && fresh(hash))
    {
      var found := size;
      if n > 0 {
        found := Find(k);
      } else {
        AllEmpty(view.keys);
        assert Sound(view, Listed);
      }
      if found < size {
        Replace(found, v);
      } else {
        Add(k, v);
      }
      SizeIsOccupied(view);
    }

    method Replace(i: nat, v: Text)
      requires Valid() && i < size && view.keys[i].Some?
      modifies val, this`view
      ensures Valid() && view == WithValue(old(view), i, v)
    {
      val[i] := v;
      view := WithValue(view, i, v);
    }

    method Add(k: string, v: Text)
      requires Valid() && k !in view.contents
      modifies this, val, key, hash
      ensures Valid() && view.contents == old(view).contents[k := v]
      ensures (val == old(val) && key == old(key) && hash == old(hash)) || (fresh(val) && fresh(key) && fresh(hash))
    {
      if n == size {
        Grow();
      }
      Insert(k, v);
    }

    method Insert(k: string, v: Text)
      requires Valid() && k !in view.contents && n < size
      modifies this`n, this`view, val, key, hash
      ensures Valid() && view.contents == old(view).contents[k := v]
    {
      hide Sound, Occupied, Lookup;
      var i := EmptySlot();
      key[i] := Some(k);
      val[i] := v;
      hash[i] := h(k);
      n := n + 1;
      OccupiedSet(view.keys, i, Some(k));
      view := WithKey(view, i, k, v);
    }

    method Unset(k: string)
      requires Valid()
      modifies this`n, this`view, val, key, hash
      ensures Valid() && view.contents == old(view).contents - {k} && n == |view.contents|
    {
      var i := Find(k);
      if i < size {
        Erase(i);
      }
      SizeIsOccupied(view);
    }

    method Erase(i: nat)
      requires Valid() && i < size && view.keys[i].Some?
      modifies this`n, this`view, val, key, hash
      ensures Valid() && view == Without(old(view), i)
    {
      hide Sound, Occupied, Lookup;
      key[i] := None;
      val[i] := None;
      hash[i] := 0;
      OccupiedSet(view.keys, i, None);
      n := n - 1;
      view := Without(view, i);
    }
  }

  /** What dictionary.h says of a key set to NULL, at an input: here `k` is set to nothing... */
  method GetAfterNone(h: string -> nat, k: string, v: string, d: string) returns (r: Text, keys: nat)
    ensures r == None && keys == 1
  {
    var a := new Dictionary(0, h);
    a.Set(k, Some(v));
    a.Set(k, None);
    r := a.Get(k, Some(d));
    keys := a.n;
    assert a.view.contents.Keys == {k};
  }

  /** ...and here it is deleted, after the same start. */
  method GetAfterUnset(h: string -> nat, k: string, v: string, d: string) returns (r: Text, keys: nat)
    ensures r == Some(d) && keys == 0
  {
    var b := new Dictionary(0, h);
    b.Set(k, Some(v));
    b.Unset(k);
    r := b.Get(k, Some(d));
    keys := b.n;
  }
}
