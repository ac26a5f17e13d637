/**
  QOutput::toggle(grab) (qoutput.cpp) and its copy XRandROutput::toggle
  (xrroutput.cpp): disableOutput when the output is enabled, enableOutput
  otherwise. enable(grab) and disable(grab) hand the output to the parent's
  enableOutput and disableOutput unchanged, which the backend modules model.
 */
module OutputToggle {
  import opened OrdMap
  import opened QOutput
  import X = XRandRScreenResources
  import K = KScreenResources
  import KScreenOutput
  import Xrandr
  import Geometry

  /** toggle(grab) on the X11 backend for the output stored under `key`. */
  function XToggle(s: X.State, key: nat, grab: bool, status: Xrandr.CrtcRequest -> nat): (r: X.Outcome)
    requires X.Valid(s) && Contains(s.outputs, key)
    ensures X.Valid(r.state)
    ensures Get(s.outputs, key).value.enabled ==> r == X.DisableOutput(s, key, grab, status)
    ensures !Get(s.outputs, key).value.enabled ==> r == X.EnableOutput(s, key, grab, status)
  {
    if Get(s.outputs, key).value.enabled then X.DisableOutput(s, key, grab, status)
    else X.EnableOutput(s, key, grab, status)
  }

  /**
    On the X11 backend toggle answers true exactly when the flag flipped;
    a false answer leaves the whole state as it was, and a true one changes
    nothing but the flag.
   */
  lemma XToggleFlipsIffTrue(s: X.State, key: nat, grab: bool, status: Xrandr.CrtcRequest -> nat)
    requires X.Valid(s) && Contains(s.outputs, key)
    ensures var o := Get(s.outputs, key).value;
            var r := XToggle(s, key, grab, status);
            Contains(r.state.outputs, key)
            && (r.ok <==> Get(r.state.outputs, key).value.enabled != o.enabled)
            && (r.ok ==> Get(r.state.outputs, key) == Some(o.(enabled := !o.enabled))
                         && forall k :: k != key ==> Get(r.state.outputs, k) == Get(s.outputs, k))
            && (!r.ok ==> r.state == s)
  {
  }

  /** toggle(grab) on the KScreen backend for the output stored under `key`. */
  function KToggle(s: K.KState, key: nat, current: Option<K.Config>, accept: K.Config -> bool): (r: K.KOutcome)
    requires Sorted(s.outputs) && Contains(s.outputs, key)
    ensures Sorted(r.state.outputs)
    ensures Get(s.outputs, key).value.enabled ==> r == K.DisableOutput(s, key, current, accept)
    ensures !Get(s.outputs, key).value.enabled ==> r == K.EnableOutput(s, key, current, accept)
  {
    if Get(s.outputs, key).value.enabled then K.DisableOutput(s, key, current, accept)
    else K.EnableOutput(s, key, current, accept)
  }

  /**
    Every stored KScreen object with identity `h` has the enabled flag
    `flag` (the KScreen backend may have moved the object to another key).
   */
  predicate FlagOf(m: Entries<Output>, h: nat, flag: bool) {
    forall e :: e in m && e.1.kind.KScreen? && e.1.kind.handle == h ==> e.1.enabled == flag
  }

  /** In a sorted map an entry is the one Get finds under its key. */
  lemma EntryIsValue<V>(m: Entries<V>, e: (nat, V))
    requires Sorted(m) && e in m
    ensures Get(m, e.0) == Some(e.1)
  {
    var i :| 0 <= i < |m| && m[i] == e;
    GetAt(m, i);
  }

  /** One refresh step keeps the flag of every object that existed before it. */
  lemma RefreshOneKeepsFlag(s: K.KState, info: KOutputInfo, h: nat, flag: bool)
    requires Sorted(s.outputs) && h < s.nextHandle && FlagOf(s.outputs, h, flag)
    ensures h < K.RefreshOne(s, info).nextHandle && FlagOf(K.RefreshOne(s, info).outputs, h, flag)
  {
    var r := K.RefreshOne(s, info);
    var cur := Get(s.outputs, info.id);
    var i := K.FirstNamed(s.outputs, info.name);
    forall e | e in r.outputs && e.1.kind.KScreen? && e.1.kind.handle == h
      ensures e.1.enabled == flag
    {
      var j :| 0 <= j < |r.outputs| && r.outputs[j] == e;
      if cur.Some? && cur.value.kind.KScreen? {
        PutEntries(s.outputs, info.id, KScreenOutput.Update(cur.value, Some(info)), j);
      } else if i < |s.outputs| && s.outputs[i].1.kind.KScreen? {
        var moved := Remove(s.outputs, s.outputs[i].0);
        PutEntries(moved, info.id, KScreenOutput.Update(s.outputs[i].1, Some(info)), j);
        assert s.outputs[i] in s.outputs;
      } else {
        PutEntries(s.outputs, info.id, KScreenOutput.FromInfo(s.nextHandle, Some(info)), j);
      }
    }
  }

  lemma {:induction false} RefreshAllKeepsFlag(s: K.KState, cfg: K.Config, h: nat, flag: bool)
    requires Sorted(s.outputs) && h < s.nextHandle && FlagOf(s.outputs, h, flag)
    ensures FlagOf(K.RefreshAll(s, cfg).outputs, h, flag)
    decreases |cfg|
  {
    if |cfg| > 0 {
      RefreshOneKeepsFlag(s, cfg[0], h, flag);
      RefreshAllKeepsFlag(K.RefreshOne(s, cfg[0]), cfg[1..], h, flag);
    }
  }

  /**
    refreshOutputs(config) never changes the enabled flag of an object it
    keeps: it only updates connections, re-keys objects and drops them.
   */
  lemma RefreshKeepsFlag(s: K.KState, cfg: K.Config, h: nat, flag: bool)
    requires Sorted(s.outputs) && h < s.nextHandle && FlagOf(s.outputs, h, flag)
    ensures FlagOf(K.Refresh(s, cfg).outputs, h, flag)
  {
    var t := K.RefreshAll(s, cfg);
    RefreshAllKeepsFlag(s, cfg, h, flag);
    var r := K.Refresh(s, cfg).outputs;
    forall e | e in r && e.1.kind.KScreen? && e.1.kind.handle == h
      ensures e.1.enabled == flag
    {
      var j :| 0 <= j < |r| && r[j] == e;
      assert r[j] in t.outputs;
    }
  }

  /** Setting the flag of the stored object `o` gives its identity that flag everywhere. */
  lemma FlipSetsFlag(s: K.KState, key: nat, flag: bool)
    requires K.Valid(s) && Contains(s.outputs, key)
    ensures var o := Get(s.outputs, key).value;
            o.kind.KScreen? && o.kind.handle < s.nextHandle
            && FlagOf(K.Flip(s, key, flag).outputs, o.kind.handle, flag)
  {
    var o := Get(s.outputs, key).value;
    var m := K.Flip(s, key, flag).outputs;
    forall e | e in m && e.1.kind.KScreen? && e.1.kind.handle == o.kind.handle
      ensures e.1.enabled == flag
    {
      var j :| 0 <= j < |m| && m[j] == e;
      PutEntries(s.outputs, key, o.(enabled := flag), j);
      if e != (key, o.(enabled := flag)) {
        EntryIsValue(s.outputs, e);
        if e.0 == key {
          EntryIsValue(m, e);
        }
      }
    }
  }

  /** In a valid state the object stored under `key` is the only one with its identity. */
  lemma StoredFlag(s: K.KState, key: nat)
    requires K.Valid(s) && Contains(s.outputs, key)
    ensures var o := Get(s.outputs, key).value;
            o.kind.KScreen? && FlagOf(s.outputs, o.kind.handle, o.enabled)
  {
    var o := Get(s.outputs, key).value;
    forall e | e in s.outputs && e.1.kind.KScreen? && e.1.kind.handle == o.kind.handle
      ensures e.1.enabled == o.enabled
    {
      EntryIsValue(s.outputs, e);
    }
  }

  /** Revert gives every object with identity `h` the flag it sets. */
  lemma RevertSetsFlag(outs: Entries<Output>, h: nat, flag: bool)
    ensures FlagOf(K.Revert(outs, h, flag), h, flag)
  {
    var m := K.Revert(outs, h, flag);
    forall e | e in m && e.1.kind.KScreen? && e.1.kind.handle == h
      ensures e.1.enabled == flag
    {
      var j :| 0 <= j < |m| && m[j] == e;
    }
  }

  /**
    The commit after the flag of `h` was set to `!before`: accepted, the
    refreshed state keeps that flag; refused, the flag is `before` again.
   */
  lemma ApplyFlag(s1: K.KState, h: nat, before: bool, current: Option<K.Config>, accept: K.Config -> bool)
    requires Sorted(s1.outputs) && h < s1.nextHandle && FlagOf(s1.outputs, h, !before)
    ensures var r := K.Apply(s1, h, before, current, accept);
            (r.ok ==> FlagOf(r.state.outputs, h, !before)) && (!r.ok ==> FlagOf(r.state.outputs, h, before))
  {
    var u := K.UpdateConfig(s1, K.Offset(s1), K.Shift(s1), current, accept);
    if u.ok {
      RefreshKeepsFlag(s1, current.value, h, !before);
    } else {
      RevertSetsFlag(u.state.outputs, h, before);
    }
  }

  /** The KScreen object with identity `h` is stored under `k`. */
  predicate HoldsObject(m: Entries<Output>, h: nat, k: nat) {
    var o := Get(m, k);
    o.Some? && o.value.kind.KScreen? && o.value.kind.handle == h
  }

  lemma PutKeepsObject(m: Entries<Output>, key: nat, v: Output, h: nat, k: nat)
    requires Sorted(m) && HoldsObject(m, h, k) && k != key
    ensures HoldsObject(Put(m, key, v), h, k)
  {
  }

  lemma PutHoldsObject(m: Entries<Output>, key: nat, v: Output, h: nat)
    requires Sorted(m) && v.kind.KScreen? && v.kind.handle == h
    ensures HoldsObject(Put(m, key, v), h, key)
  {
  }

  /** One refresh step keeps the object `h`: where it was, or under the id the step stores. */
  lemma RefreshOneKeepsObject(s: K.KState, info: KOutputInfo, h: nat, k: nat)
    requires Sorted(s.outputs) && HoldsObject(s.outputs, h, k)
    ensures var m := K.RefreshOne(s, info).outputs;
            HoldsObject(m, h, k) || HoldsObject(m, h, info.id)
  {
    var r := K.RefreshOne(s, info);
    var cur := Get(s.outputs, info.id);
    if cur.Some? && cur.value.kind.KScreen? {
      var v := KScreenOutput.Update(cur.value, Some(info));
      assert r.outputs == Put(s.outputs, info.id, v);
      if k == info.id {
        PutHoldsObject(s.outputs, info.id, v, h);
      } else {
        PutKeepsObject(s.outputs, info.id, v, h, k);
      }
    } else {
      var i := K.FirstNamed(s.outputs, info.name);
      if i < |s.outputs| && s.outputs[i].1.kind.KScreen? {
        var moved := Remove(s.outputs, s.outputs[i].0);
        var v := KScreenOutput.Update(s.outputs[i].1, Some(info));
        assert r.outputs == Put(moved, info.id, v);
        if s.outputs[i].0 == k {
          GetAt(s.outputs, i);
          PutHoldsObject(moved, info.id, v, h);
        } else {
          assert HoldsObject(moved, h, k);
          PutKeepsObject(moved, info.id, v, h, k);
        }
      } else {
        var v := KScreenOutput.FromInfo(s.nextHandle, Some(info));
        assert r.outputs == Put(s.outputs, info.id, v);
        PutKeepsObject(s.outputs, info.id, v, h, k);
      }
    }
  }

  /**
    The update-and-create loop never drops an object: `h` ends up where it
    was or under an id the configuration lists.
   */
  lemma {:induction false} RefreshAllKeepsObject(s: K.KState, cfg: K.Config, h: nat, k: nat) returns (k': nat)
    requires Sorted(s.outputs) && HoldsObject(s.outputs, h, k)
    ensures (k' == k || k' in K.Ids(cfg)) && HoldsObject(K.RefreshAll(s, cfg).outputs, h, k')
    decreases |cfg|
  {
    if |cfg| == 0 {
      k' := k;
    } else {
      var s1 := K.RefreshOne(s, cfg[0]);
      RefreshOneKeepsObject(s, cfg[0], h, k);
      var k1 := if HoldsObject(s1.outputs, h, k) then k else cfg[0].id;
      k' := RefreshAllKeepsObject(s1, cfg[1..], h, k1);
      IdsCons(cfg);
    }
  }

  /** The ids of a configuration are those of its head, then those of its tail. */
  lemma IdsCons(cfg: K.Config)
    requires |cfg| > 0
    ensures K.Ids(cfg) == [cfg[0].id] + K.Ids(cfg[1..])
  {
    assert forall i :: 0 <= i < |cfg| - 1 ==> K.Ids(cfg)[i + 1] == K.Ids(cfg[1..])[i];
  }

  /** An object stored under an id the configuration lists survives refreshOutputs(config). */
  lemma RefreshKeepsObject(s: K.KState, cfg: K.Config, h: nat, k: nat)
    requires Sorted(s.outputs) && HoldsObject(s.outputs, h, k) && k in K.Ids(cfg)
    ensures exists k' :: HoldsObject(K.Refresh(s, cfg).outputs, h, k')
  {
    var k' := RefreshAllKeepsObject(s, cfg, h, k);
    var t := K.RefreshAll(s, cfg);
    GetRestrict(t.outputs, K.Ids(cfg), k');
    assert HoldsObject(K.Refresh(s, cfg).outputs, h, k');
  }

  /** Setting a flag by identity keeps every object where it is. */
  lemma RevertKeepsObject(outs: Entries<Output>, h: nat, flag: bool, h': nat, k: nat)
    requires HoldsObject(outs, h', k)
    ensures HoldsObject(K.Revert(outs, h, flag), h', k)
  {
    GetMapValues(outs, (o: Output) => if o.kind.KScreen? && o.kind.handle == h then o.(enabled := flag) else o, k);
  }

  /** updateConfig keeps the object `h` stored, under an id the configuration lists if one is read. */
  lemma UpdateKeepsObject(s1: K.KState, h: nat, offset: Geometry.Point, shift: U32, current: Option<K.Config>,
                          accept: K.Config -> bool, k: nat) returns (k1: nat)
    requires Sorted(s1.outputs) && HoldsObject(s1.outputs, h, k)
    requires current.None? || k in K.Ids(current.value)
    ensures HoldsObject(K.UpdateConfig(s1, offset, shift, current, accept).state.outputs, h, k1)
  {
    k1 := k;
    if current.Some? {
      RefreshKeepsObject(s1, current.value, h, k);
      k1 :| HoldsObject(K.Refresh(s1, current.value).outputs, h, k1);
    }
  }

  /**
    The commit after a flip keeps the flipped object `h` stored when no
    configuration is read, or when the one read lists the id it is stored under.
   */
  lemma ApplyKeepsObject(s1: K.KState, h: nat, before: bool, current: Option<K.Config>, accept: K.Config -> bool, k: nat)
    requires Sorted(s1.outputs) && HoldsObject(s1.outputs, h, k)
    requires current.None? || k in K.Ids(current.value)
    ensures exists k' :: HoldsObject(K.Apply(s1, h, before, current, accept).state.outputs, h, k')
  {
    var k1 := UpdateKeepsObject(s1, h, K.Offset(s1), K.Shift(s1), current, accept, k);
    var u := K.UpdateConfig(s1, K.Offset(s1), K.Shift(s1), current, accept);
    if !u.ok {
      RevertKeepsObject(u.state.outputs, h, before, h, k1);
    }
    assert HoldsObject(K.Apply(s1, h, before, current, accept).state.outputs, h, k1);
  }

  /**
    On the KScreen backend a true answer means the toggled object now has
    the opposite flag, and a false answer means it still has its old flag,
    wherever refreshOutputs has moved it. When the refusal comes before any
    configuration is read, or no configuration can be read, the state is
    the one toggle started from.
   */
  lemma KToggleFlipsIffTrue(s: K.KState, key: nat, current: Option<K.Config>, accept: K.Config -> bool)
    requires K.Valid(s) && Contains(s.outputs, key)
    ensures var o := Get(s.outputs, key).value;
            var r := KToggle(s, key, current, accept);
            o.kind.KScreen?
            && (r.ok ==> FlagOf(r.state.outputs, o.kind.handle, !o.enabled))
            && (!r.ok ==> FlagOf(r.state.outputs, o.kind.handle, o.enabled))
            && (!r.ok && current.None? ==> r.state == s)
            && ((current.None? || key in K.Ids(current.value)) ==>
                  exists k :: HoldsObject(r.state.outputs, o.kind.handle, k))
  {
    var o := Get(s.outputs, key).value;
    StoredFlag(s, key);
    if !(o.enabled && K.Screen(K.Flip(s, key, false)).IsNull()) {
      var s1 := K.Flip(s, key, !o.enabled);
      FlipSetsFlag(s, key, !o.enabled);
      ApplyFlag(s1, o.kind.handle, o.enabled, current, accept);
      if current.None? {
        K.RevertUndoesFlip(s, key, !o.enabled);
      }
      if current.None? || key in K.Ids(current.value) {
        ApplyKeepsObject(s1, o.kind.handle, o.enabled, current, accept, key);
      }
    } else {
      assert HoldsObject(s.outputs, o.kind.handle, key);
    }
  }
}
