/** Deferred naming of policies and policysets (`GenName`).

    In the compiler a name slot is a shared, mutable cell that starts
    empty for an anonymous policy and is filled once its generated name is
    chosen; every path that contains the slot sees the name. Here a slot is
    an index into an `Arena` and a path (`GenName`) is a sequence of slot
    indices, so sharing a slot is sharing its index. */
module Naming {
  import opened Wrappers
  import opened Strings

  type SlotId = nat

  /** The store of all name slots. `next` is the index the next allocation
      uses; every slot in use lies below it. */
  datatype Arena = Arena(slots: map<SlotId, Option<string>>, next: SlotId)

  predicate ValidArena(a: Arena)
  {
    forall k :: k in a.slots ==> k < a.next
  }

  /** A policy path: slot indices from the outermost policy to this one. */
  type GenName = seq<SlotId>

  /** The current content of a slot; a slot never allocated reads empty. */
  function Slot(a: Arena, k: SlotId): Option<string>
  {
    if k in a.slots then a.slots[k] else None
  }

  /** A new slot holding `v` (`Rc::new(RefCell::new(v))`). */
  function Alloc(a: Arena, v: Option<string>): (r: (Arena, SlotId))
    ensures Slot(r.0, r.1) == v
    ensures forall k :: k != r.1 ==> Slot(r.0, k) == Slot(a, k)
    ensures ValidArena(a) ==> ValidArena(r.0) && r.1 !in a.slots
  {
    (Arena(a.slots[a.next := v], a.next + 1), a.next)
  }

  /** Overwrite a slot (`RefCell::replace`): visible through every path
      that holds it. */
  function Fill(a: Arena, k: SlotId, v: Option<string>): (r: Arena)
    ensures Slot(r, k) == v
    ensures forall j :: j != k ==> Slot(r, j) == Slot(a, j)
    ensures ValidArena(a) ==> ValidArena(r)
  {
    Arena(a.slots[k := v], if k < a.next then a.next else k + 1)
  }

  /** `push_name`. */
  function PushName(p: GenName, k: SlotId): (r: GenName)
    ensures |r| == |p| + 1 && r[..|p|] == p && r[|p|] == k
  {
    p + [k]
  }

  /** `push_name_at_index`: `Vec::insert`, which requires `idx <= len`. */
  function PushNameAtIndex(p: GenName, k: SlotId, idx: nat): (r: GenName)
    requires idx <= |p|
    ensures |r| == |p| + 1
    ensures r[idx] == k
    ensures forall i :: 0 <= i < idx ==> r[i] == p[i]
    ensures forall i :: idx < i < |r| ==> r[i] == p[i - 1]
  {
    p[..idx] + [k] + p[idx..]
  }

  /** `is_resolvable`: every slot on the path is filled. */
  predicate IsResolvable(a: Arena, p: GenName)
  {
    forall i :: 0 <= i < |p| ==> Slot(a, p[i]).Some?
  }

  /** The slot contents along a resolvable path, position by position. */
  function SlotNames(a: Arena, p: GenName): (r: seq<string>)
    requires IsResolvable(a, p)
    ensures |r| == |p|
  {
    seq(|p|, i requires 0 <= i < |p| && Slot(a, p[i]).Some? => Slot(a, p[i]).value)
  }

  /** Collect the slot contents, failing on the first empty slot
      (`collect::<Option<Vec<String>>>`). */
  function CollectNames(a: Arena, p: GenName): (r: Option<seq<string>>)
    ensures r.Some? <==> IsResolvable(a, p)
    ensures r.Some? ==> r.value == SlotNames(a, p)
  {
    if |p| == 0 then Some([])
    else
      match CollectNames(a, p[..|p| - 1])
      case None => None
      case Some(init) =>
        match Slot(a, p[|p| - 1])
        case None => None
        case Some(v) => Some(init + [v])
  }

  /** `build_path(sep)`: the joined slot contents when every slot is
      filled. */
  function BuildPath(a: Arena, p: GenName, sep: string): (r: Option<string>)
    ensures r.Some? <==> IsResolvable(a, p)
    ensures r.Some? ==> r.value == Join(SlotNames(a, p), sep)
  {
    match CollectNames(a, p)
    case None => None
    case Some(names) => Some(Join(names, sep))
  }

  /** `last_elem`. */
  function LastElem(p: GenName): (r: Option<SlotId>)
    ensures r.None? <==> |p| == 0
    ensures r.Some? ==> r.value == p[|p| - 1]
  {
    if |p| == 0 then None else Some(p[|p| - 1])
  }

  /** `policy_level`: the depth of the path. */
  function PolicyLevel(p: GenName): nat
  {
    |p|
  }

  /** A pushed path is resolvable exactly when the old path was and the new
      slot is filled; its built path extends the old one by the new name. */
  lemma PushNameResolvable(a: Arena, p: GenName, k: SlotId, sep: string)
    ensures IsResolvable(a, PushName(p, k)) <==> IsResolvable(a, p) && Slot(a, k).Some?
    ensures IsResolvable(a, PushName(p, k)) && |p| > 0 ==>
              BuildPath(a, PushName(p, k), sep) == Some(BuildPath(a, p, sep).value + sep + Slot(a, k).value)
  {
    var q := PushName(p, k);
    if IsResolvable(a, p) && Slot(a, k).Some? {
      assert forall i :: 0 <= i < |q| ==> Slot(a, q[i]).Some?;
    }
    if IsResolvable(a, q) {
      assert forall i :: 0 <= i < |p| ==> q[i] == p[i];
      assert q[|p|] == k;
      if |p| > 0 {
        assert SlotNames(a, q) == SlotNames(a, p) + [Slot(a, k).value];
        JoinSnoc(SlotNames(a, p), Slot(a, k).value, sep);
      }
    }
  }

  /** Inserting a slot keeps resolvability iff the inserted slot is filled,
      and the names move along with their slots. */
  lemma PushNameAtIndexNames(a: Arena, p: GenName, k: SlotId, idx: nat)
    requires idx <= |p|
    ensures IsResolvable(a, PushNameAtIndex(p, k, idx)) <==> IsResolvable(a, p) && Slot(a, k).Some?
    ensures IsResolvable(a, PushNameAtIndex(p, k, idx)) ==>
              SlotNames(a, PushNameAtIndex(p, k, idx))
              == SlotNames(a, p)[..idx] + [Slot(a, k).value] + SlotNames(a, p)[idx..]
  {
    var q := PushNameAtIndex(p, k, idx);
    if IsResolvable(a, q) {
      forall i | 0 <= i < |p| ensures Slot(a, p[i]).Some? {
        if i < idx { assert q[i] == p[i]; } else { assert q[i + 1] == p[i]; }
      }
    }
    if IsResolvable(a, p) && Slot(a, k).Some? {
      forall i | 0 <= i < |q| ensures Slot(a, q[i]).Some? {
        if i < idx { assert q[i] == p[i]; } else if i > idx { assert q[i] == p[i - 1]; }
      }
    }
  }

  /** Filling a slot is seen through every path that shares it, and through
      no other position. */
  lemma FillIsShared(a: Arena, k: SlotId, v: string, p: GenName, q: GenName, i: nat, j: nat)
    requires i < |p| && p[i] == k
    requires j < |q| && q[j] == k
    ensures Slot(Fill(a, k, Some(v)), p[i]) == Slot(Fill(a, k, Some(v)), q[j]) == Some(v)
    ensures forall m :: 0 <= m < |p| && p[m] != k ==> Slot(Fill(a, k, Some(v)), p[m]) == Slot(a, p[m])
  {
  }

  /** The resolvability scenario of naming.rs's own test: an empty path
      resolves; pushing an empty slot blocks resolution; filling that slot
      through its handle unblocks it. */
  lemma ResolvableScenario(a: Arena)
    ensures IsResolvable(a, [])
    ensures !IsResolvable(Alloc(a, None).0, PushName([], Alloc(a, None).1))
    ensures IsResolvable(Fill(Alloc(a, None).0, Alloc(a, None).1, Some("a-name")), PushName([], Alloc(a, None).1))
  {
    var (a1, x) := Alloc(a, None);
    var p := PushName([], x);
    assert p[0] == x;
    var a2 := Fill(a1, x, Some("a-name"));
    assert Slot(a2, p[0]).Some?;
  }
}
