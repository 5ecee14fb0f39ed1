/**
 The table of exported objects: positions come from a wrapping 64-bit counter, and a position is
 handed out (`Reserve`) before the object is stored under it (`Finalize`).
 */
module KeyMaps {
  import opened Wrappers

  /** The value of a key map: the next key, and the stored entries. */
  datatype Keys<V> = Keys(next: U64, entries: map<U64, V>) {
    function Reserve(): Keys<V> { Keys(Wrap(next + 1), entries) }

    function Insert(key: U64, value: V): Keys<V> { Keys(next, entries[key := value]) }
  }

  class KeyMap<V> {
    var entries: map<U64, V>
    var currentKey: U64

    function Contents(): Keys<V>
      reads this
    {
      Keys(currentKey, entries)
    }

    constructor WithInitial(initial: U64)
      ensures Contents() == Keys(initial, map[])
    {
      entries, currentKey := map[], initial;
    }

    method NextKey() returns (key: U64)
      modifies this`currentKey
      ensures key == old(currentKey) && Contents() == old(Contents()).Reserve()
    {
      key := currentKey;
      currentKey := Wrap(currentKey + 1);
    }

    method Reserve() returns (r: Reservation<V>)
      modifies this`currentKey
      ensures r.owner == this && r.key == old(currentKey)
      ensures Contents() == old(Contents()).Reserve()
    {
      var key := NextKey();
      r := Reservation(key, this);
    }

    method Push(value: V) returns (key: U64)
      modifies this
      ensures key == old(currentKey)
      ensures Contents() == old(Contents()).Reserve().Insert(key, value)
    {
      key := NextKey();
      entries := entries[key := value];
    }

    method Remove(key: U64) returns (removed: Option<V>)
      modifies this`entries
      ensures removed == if key in old(entries) then Some(old(entries)[key]) else None
      ensures entries == old(entries) - {key}
    {
      removed := if key in entries then Some(entries[key]) else None;
      entries := entries - {key};
    }

    function Get(key: U64): Option<V>
      reads this
    {
      if key in entries then Some(entries[key]) else None
    }
  }

  /** A key that has been handed out and may still be filled, once. */
  datatype Reservation<!V> = Reservation(key: U64, owner: KeyMap<V>) {
    method Finalize(value: V) returns (position: U64)
      modifies owner
      ensures position == key
      ensures owner.Contents() == old(owner.Contents()).Insert(key, value)
    {
      owner.entries := owner.entries[key := value];
      position := key;
    }
  }

  // ---------------------------------------------------------------------------------------------
  // Interleaved reservations

  /** One atomic action on the table; `slot` counts reservations from zero. */
  datatype Action<V> = Reserve | Finalize(slot: nat, value: V)

  /** The table with its history: the keys in the order handed out, and what filled each slot. */
  datatype Ledger<V> = Ledger(keys: seq<U64>, filled: map<nat, V>, table: Keys<V>) {
    /** A reservation is consumed by finalizing it, so a slot is filled at most once. */
    predicate Enabled(a: Action<V>) {
      a.Finalize? ==> a.slot < |keys| && a.slot !in filled
    }

    function Apply(a: Action<V>): Ledger<V>
      requires Enabled(a)
    {
      match a
      case Reserve => Ledger(keys + [table.next], filled, table.Reserve())
      case Finalize(slot, value) => Ledger(keys, filled[slot := value], table.Insert(keys[slot], value))
    }
  }

  /** Position 0 belongs to the bootstrap object, so exports start at 1. */
  function Fresh<V>(): Ledger<V> { Ledger([], map[], Keys(1, map[])) }

  ghost predicate IsRun<V(!new)>(run: seq<Ledger<V>>) {
    && |run| > 0 && run[0] == Fresh()
    && forall i :: 0 <= i < |run| - 1 ==> Follows(run[i], run[i + 1])
  }

  ghost predicate Follows<V(!new)>(s: Ledger<V>, t: Ledger<V>) {
    exists a :: s.Enabled(a) && t == s.Apply(a)
  }

  ghost predicate Distinct(keys: seq<U64>) {
    forall i, j :: 0 <= i < j < |keys| ==> keys[i] != keys[j]
  }

  /** The i-th key handed out is i + 1, modulo the key space. */
  ghost predicate Counted<V>(s: Ledger<V>) {
    && s.table.next == Wrap(|s.keys| + 1)
    && (forall i :: 0 <= i < |s.keys| ==> s.keys[i] == Wrap(i + 1))
    && (forall i :: i in s.filled ==> i < |s.keys|)
  }

  /** The entries are the filled slots and nothing else: no finalize has overwritten another. */
  ghost predicate Faithful<V>(s: Ledger<V>) {
    && s.table.next == Wrap(|s.keys| + 1)
    && (forall i :: 0 <= i < |s.keys| ==> s.keys[i] == i + 1)
    && (forall i :: i in s.filled ==> i < |s.keys| && i + 1 in s.table.entries && s.table.entries[i + 1] == s.filled[i])
    && (forall k :: k in s.table.entries ==> 1 <= k && k - 1 in s.filled)
  }

  lemma {:induction false} RunCounted<V(!new)>(run: seq<Ledger<V>>, n: nat)
    requires IsRun(run) && n < |run|
    ensures Counted(run[n])
  {
    if n > 0 {
      RunCounted(run, n - 1);
      assert Follows(run[n - 1], run[n]);
    }
  }

  lemma {:induction false} KeysGrow<V(!new)>(run: seq<Ledger<V>>, i: nat, j: nat)
    requires IsRun(run) && i <= j < |run|
    ensures run[i].keys <= run[j].keys
    ensures forall s :: s in run[i].filled ==> s in run[j].filled && run[j].filled[s] == run[i].filled[s]
    decreases j - i
  {
    if i < j {
      KeysGrow(run, i, j - 1);
      assert Follows(run[j - 1], run[j]);
    }
  }

  /** All keys handed out are distinct and non-zero exactly up to 2^64 - 1 reservations. */
  lemma KeysDistinctExactly<V(!new)>(run: seq<Ledger<V>>, n: nat)
    requires IsRun(run) && n < |run|
    ensures Distinct(run[n].keys) && 0 !in run[n].keys <==> |run[n].keys| < U64_SPACE
  {
    RunCounted(run, n);
    var keys := run[n].keys;
    if |keys| >= U64_SPACE {
      assert keys[U64_SPACE - 1] == 0;
    }
  }

  lemma ReserveFaithful<V(!new)>(s: Ledger<V>)
    requires Faithful(s) && |s.keys| + 1 < U64_SPACE
    ensures Faithful(s.Apply(Reserve))
  {
  }

  lemma FinalizeFaithful<V(!new)>(s: Ledger<V>, slot: nat, value: V)
    requires Faithful(s) && s.Enabled(Finalize(slot, value))
    ensures Faithful(s.Apply(Finalize(slot, value)))
    ensures s.keys[slot] == slot + 1 && s.keys[slot] !in s.table.entries
  {
  }

  lemma StepFaithful<V(!new)>(s: Ledger<V>, a: Action<V>)
    requires Faithful(s) && s.Enabled(a) && |s.Apply(a).keys| < U64_SPACE
    ensures Faithful(s.Apply(a))
  {
    match a
    case Reserve => ReserveFaithful(s);
    case Finalize(slot, value) => FinalizeFaithful(s, slot, value);
  }

  lemma FollowsFaithful<V(!new)>(s: Ledger<V>, t: Ledger<V>)
    requires Faithful(s) && Follows(s, t) && |t.keys| < U64_SPACE
    ensures Faithful(t)
  {
    var a :| s.Enabled(a) && t == s.Apply(a);
    StepFaithful(s, a);
  }

  lemma {:induction false} RunFaithful<V(!new)>(run: seq<Ledger<V>>, n: nat)
    requires IsRun(run) && n < |run| && |run[n].keys| < U64_SPACE
    ensures Faithful(run[n])
  {
    if n > 0 {
      KeysGrow(run, n - 1, n);
      RunFaithful(run, n - 1);
      FollowsFaithful(run[n - 1], run[n]);
    }
  }

  /** A finalize fills a vacant key, and the entry it makes is there in every later state. */
  lemma FinalizedForever<V(!new)>(run: seq<Ledger<V>>, i: nat, slot: nat, value: V, j: nat)
    requires IsRun(run) && i < j < |run| && |run[j].keys| < U64_SPACE
    requires run[i].Enabled(Finalize(slot, value)) && run[i + 1] == run[i].Apply(Finalize(slot, value))
    ensures run[i].keys[slot] !in run[i].table.entries
    ensures run[i].keys[slot] in run[j].table.entries && run[j].table.entries[run[i].keys[slot]] == value
  {
    KeysGrow(run, i, i + 1);
    KeysGrow(run, i + 1, j);
    RunFaithful(run, i);
    FinalizeFaithful(run[i], slot, value);
    RunFaithful(run, j);
    assert slot in run[i + 1].filled;
    assert run[j].filled[slot] == value && slot + 1 in run[j].table.entries;
  }

  // ---------------------------------------------------------------------------------------------
  // Exports whose callback exports again

  /** An exported object; `nested` is what its `exported` callback exports in turn. */
  datatype Object = Object(id: nat, nested: seq<Object>)

  function Size(obj: Object): (n: nat)
    ensures n >= 1
    decreases obj, 1
  {
    1 + TotalSize(obj.nested)
  }

  function TotalSize(objs: seq<Object>): nat
    decreases objs, 0
  {
    if objs == [] then 0 else Size(objs[0]) + TotalSize(objs[1..])
  }

  /** Reserve, run the callback, then store: the object lands under the key reserved first. */
  function Export(t: Keys<Object>, obj: Object): Keys<Object>
    decreases obj, 1
  {
    ExportAll(t.Reserve(), obj.nested).Insert(t.next, obj)
  }

  function ExportAll(t: Keys<Object>, objs: seq<Object>): Keys<Object>
    decreases objs, 0
  {
    if objs == [] then t else ExportAll(Export(t, objs[0]), objs[1..])
  }

  /** One export uses exactly as many keys as objects it exports, and touches no older key. */
  ghost predicate Appends(t: Keys<Object>, u: Keys<Object>, n: nat) {
    && u.next == Wrap(t.next + n)
    && (forall k :: k in u.entries && !(t.next <= k < t.next + n) ==> k in t.entries && u.entries[k] == t.entries[k])
    && (forall k :: k in t.entries && !(t.next <= k < t.next + n) ==> k in u.entries)
    && (forall k: U64 :: t.next <= k < t.next + n ==> k in u.entries)
  }

  lemma AppendsTwice(t: Keys<Object>, u: Keys<Object>, v: Keys<Object>, n: nat, m: nat)
    requires m > 0 && t.next + n + m <= U64_SPACE
    requires Appends(t, u, n) && Appends(u, v, m)
    ensures Appends(t, v, n + m)
  {
  }

  lemma {:induction false} ExportAppends(t: Keys<Object>, obj: Object)
    requires t.next + Size(obj) <= U64_SPACE
    ensures Appends(t, Export(t, obj), Size(obj))
    ensures t.next in Export(t, obj).entries && Export(t, obj).entries[t.next] == obj
    decreases obj, 1
  {
    if obj.nested == [] {
    } else {
      ExportAllAppends(t.Reserve(), obj.nested);
    }
  }

  lemma {:induction false} ExportAllAppends(t: Keys<Object>, objs: seq<Object>)
    requires t.next + TotalSize(objs) <= U64_SPACE
    ensures Appends(t, ExportAll(t, objs), TotalSize(objs))
    decreases objs, 0
  {
    if objs != [] {
      ExportAppends(t, objs[0]);
      if objs[1..] != [] {
        assert Size(objs[1..][0]) >= 1;
        var u := Export(t, objs[0]);
        ExportAllAppends(u, objs[1..]);
        AppendsTwice(t, u, ExportAll(u, objs[1..]), Size(objs[0]), TotalSize(objs[1..]));
      }
    }
  }

  /** An object with all that its export exports, in the order of their positions. */
  function Layout(obj: Object): (r: seq<Object>)
    ensures |r| == Size(obj) && r[0] == obj
    decreases obj, 1
  {
    [obj] + LayoutAll(obj.nested)
  }

  function LayoutAll(objs: seq<Object>): (r: seq<Object>)
    ensures |r| == TotalSize(objs)
    decreases objs, 0
  {
    if objs == [] then [] else Layout(objs[0]) + LayoutAll(objs[1..])
  }

  ghost predicate HoldsAt(t: Keys<Object>, position: int, obj: Object) {
    position in t.entries && t.entries[position] == obj
  }

  /** From `from` on the table holds these objects at successive positions. */
  ghost predicate Holds(t: Keys<Object>, from: int, objs: seq<Object>) {
    forall i {:trigger objs[i]} :: 0 <= i < |objs| ==> HoldsAt(t, from + i, objs[i])
  }

  lemma HoldsBoth(t: Keys<Object>, from: int, a: seq<Object>, b: seq<Object>)
    requires Holds(t, from, a) && Holds(t, from + |a|, b)
    ensures Holds(t, from, a + b)
  {
    forall i | 0 <= i < |a + b| ensures HoldsAt(t, from + i, (a + b)[i]) {
      if i < |a| {
        assert HoldsAt(t, from + i, a[i]);
      } else {
        assert HoldsAt(t, from + |a| + (i - |a|), b[i - |a|]);
      }
    }
  }

  /**
   Which object gets which position: the exported object the first, then, in order, each object its
   callback exports followed by what that one exports in turn.
   */
  lemma {:induction false} ExportLayout(t: Keys<Object>, obj: Object)
    requires t.next + Size(obj) <= U64_SPACE
    ensures Holds(Export(t, obj), t.next, Layout(obj))
    decreases obj, 1
  {
    ExportAppends(t, obj);
    var u := ExportAll(t.Reserve(), obj.nested);
    if obj.nested != [] {
      ExportAllLayout(t.Reserve(), obj.nested);
    }
    assert Holds(Export(t, obj), t.next + 1, LayoutAll(obj.nested));
    HoldsBoth(Export(t, obj), t.next, [obj], LayoutAll(obj.nested));
  }

  lemma {:induction false} ExportAllLayout(t: Keys<Object>, objs: seq<Object>)
    requires t.next + TotalSize(objs) <= U64_SPACE
    ensures Holds(ExportAll(t, objs), t.next, LayoutAll(objs))
    decreases objs, 0
  {
    if objs != [] {
      var u := Export(t, objs[0]);
      var v := ExportAll(u, objs[1..]);
      ExportAppends(t, objs[0]);
      ExportLayout(t, objs[0]);
      if objs[1..] != [] {
        assert Size(objs[1..][0]) >= 1;
        ExportAllAppends(u, objs[1..]);
        ExportAllLayout(u, objs[1..]);
      }
      assert Holds(v, t.next, Layout(objs[0]));
      HoldsBoth(v, t.next, Layout(objs[0]), LayoutAll(objs[1..]));
    }
  }

  class ExportManager {
    const exports: KeyMap<Object>

    constructor ()
      ensures exports.Contents() == Keys(1, map[]) && fresh(exports)
    {
      exports := new KeyMap.WithInitial(1);
    }

    method ExportObject(obj: Object) returns (position: U64)
      modifies exports
      ensures position == old(exports.currentKey)
      ensures exports.Contents() == Export(old(exports.Contents()), obj)
      decreases obj, 1
    {
      var reserve := exports.Reserve();
      Exported(obj.nested);
      position := reserve.Finalize(obj);
    }

    /** The callback of the object being exported. */
    method Exported(objs: seq<Object>)
      modifies exports
      ensures exports.Contents() == ExportAll(old(exports.Contents()), objs)
      decreases objs, 0
    {
      var i := 0;
      while i < |objs|
        invariant 0 <= i <= |objs|
        invariant ExportAll(exports.Contents(), objs[i..]) == ExportAll(old(exports.Contents()), objs)
      {
        var _ := ExportObject(objs[i]);
        assert objs[i..][1..] == objs[i + 1..];
        i := i + 1;
      }
    }
  }
}
