/**
 * What deleting by clock ranges achieves: which units are deleted after a range was applied, and
 * when these are exactly the units of the range.
 */
module Exactness {
  import opened Wrappers
  import opened Ids
  import opened Cells
  import opened Deletion

  predicate Held(s: DocState, id: Id) {
    Lookup(s.store, id).Some?
  }

  /** The unit with this ID is stored and its item is marked deleted. */
  predicate IsDead(s: DocState, id: Id) {
    Held(s, id) && Lookup(s.store, id).value.id in s.dead
  }

  /** The clock that decides whether a range takes a unit: a string can be divided, other items go as a whole. */
  function Deciding(c: Cell, id: Id): nat {
    if c.content.Str? then id.clock else c.id.clock
  }

  predicate Takes(s: DocState, client: nat, r: Range, id: Id) {
    Held(s, id) && id.client == client && InRange(r, Deciding(Lookup(s.store, id).value, id))
  }

  /** No string reaches across this boundary. */
  predicate Cut(s: DocState, at: Id) {
    Held(s, at) ==> !Divides(Lookup(s.store, at).value, at)
  }

  /** A deleted string reaches across this boundary. */
  predicate DeadAcross(s: DocState, at: Id) {
    IsDead(s, at) && !Cut(s, at)
  }

  /** An item that is not deleted and cannot be divided reaches across this boundary. */
  predicate SolidAcross(s: DocState, at: Id) {
    Held(s, at) && !IsDead(s, at) && !Lookup(s.store, at).value.content.Str? && Lookup(s.store, at).value.id != at
  }

  /** The unit `id` ends up in the new, right-hand item when its item is split at `at`. */
  predicate CutOff(s: DocState, at: Id, id: Id) {
    Held(s, id) && Divides(Lookup(s.store, id).value, at) && at.clock <= id.clock
  }

  lemma LookupSized(s: DocState, id: Id)
    requires Inv(s) && Held(s, id)
    ensures Sized(Lookup(s.store, id).value)
  {
  }

  lemma SameItem(s: DocState, id: Id, at: Id)
    requires Inv(s) && Held(s, id) && Covers(Lookup(s.store, id).value, at)
    ensures Lookup(s.store, at) == Lookup(s.store, id)
  {
    FindIsUnique(ItemsOf(s.store, id.client), id.client, at, Lookup(s.store, id).value);
  }

  lemma PartIds(c: Cell, at: Id)
    requires Sized(c) && Covers(c, at)
    ensures Divides(c, at) <==> c.content.Str? && c.id.clock < at.clock
    ensures Divides(c, at) ==> LeftPart(c, at).id == c.id && RightPart(c, at).id == at
  {
  }

  /** The item of a unit after a split: the same one, or the part that has the unit. */
  predicate Inherits(c: Cell, d: Cell, start: Id) {
    d.id == start && c.id.clock <= d.id.clock && End(d) <= End(c) && d.content.Str? == c.content.Str? && d.content.Gone? == c.content.Gone?
  }

  lemma SplitItem(s: DocState, at: Id, id: Id)
    requires Inv(s)
    ensures var t := SplitAt(s, at);
            && (Held(t, id) <==> Held(s, id))
            && (Held(s, id) ==> var c := Lookup(s.store, id).value;
                                Inherits(c, Lookup(t.store, id).value, if CutOff(s, at, id) then at else c.id))
  {
    hide Find, LeftPart, RightPart;
    SplitLookup(s, at, id);
    if Held(s, id) {
      var c := Lookup(s.store, id).value;
      LookupSized(s, id);
      if Divides(c, at) { PartsFit(c, at); }
    }
  }

  /** A split makes a boundary of its clock, keeps every other one, and revives what it cuts off a deleted item. */
  lemma SplitAtUnit(s: DocState, at: Id, id: Id)
    requires Inv(s)
    ensures var t := SplitAt(s, at);
            && (Held(t, id) <==> Held(s, id))
            && (IsDead(t, id) <==> IsDead(s, id) && !CutOff(s, at, id))
            && Cut(t, at) && (Cut(s, id) ==> Cut(t, id))
  {
    hide Find, LeftPart, RightPart;
    SplitLookup(s, at, id);
    SplitLookup(s, at, at);
    if Held(s, at) {
      LookupSized(s, at);
      PartIds(Lookup(s.store, at).value, at);
    }
    if Held(s, id) {
      var c := Lookup(s.store, id).value;
      LookupSized(s, id);
      if Covers(c, at) {
        SameItem(s, id, at);
        assert at in s.dead ==> c.id == at;
      }
    }
  }

  lemma MarkUnit(s: DocState, client: nat, r: Range, id: Id)
    requires Inv(s)
    ensures var t := MarkRange(s, client, r);
            Inv(t) &&
            (IsDead(t, id) <==>
              IsDead(s, id) || (Held(s, id) && id.client == client && InRange(r, Lookup(s.store, id).value.id.clock)))
  {
    var t := MarkRange(s, client, r);
    forall c | c in ItemsOf(s.store, client) ensures IsStart(s.store, c.id) && Lookup(s.store, c.id) == Some(c) {
      FindIsUnique(ItemsOf(s.store, client), client, c.id, c);
    }
    if Held(s, id) {
      var c := Lookup(s.store, id).value;
      FindIsUnique(ItemsOf(s.store, id.client), id.client, c.id, c);
    }
  }

  lemma ApplyKeepsInv(s: DocState, client: nat, r: Range)
    requires Inv(s)
    ensures Inv(ApplyRange(s, client, r))
  {
    hide Inv, SplitAt, MarkRange;
    var a := SplitAt(s, Id(client, r.clock));
    SplitKeepsInv(s, Id(client, r.clock));
    SplitKeepsInv(a, Id(client, r.clock + r.len));
    MarkUnit(SplitAt(a, Id(client, r.clock + r.len)), client, r, Id(client, r.clock));
  }

  /** Between boundaries an item starts in the range just when its units are taken. */
  lemma BoundedItem(s: DocState, client: nat, r: Range, id: Id)
    requires Inv(s) && Held(s, id) && id.client == client
    requires Cut(s, Id(client, r.clock)) && Cut(s, Id(client, r.clock + r.len))
    ensures InRange(r, Lookup(s.store, id).value.id.clock) <==> Takes(s, client, r, id)
  {
    var c := Lookup(s.store, id).value;
    var lo, hi := Id(client, r.clock), Id(client, r.clock + r.len);
    LookupSized(s, id);
    if Covers(c, lo) { SameItem(s, id, lo); }
    if Covers(c, hi) { SameItem(s, id, hi); }
  }

  /** Which units are deleted after a range was applied: those it takes, and the earlier ones that no split revived. */
  lemma ApplyUnit(s: DocState, client: nat, r: Range, id: Id)
    requires Inv(s)
    ensures var lo, hi := Id(client, r.clock), Id(client, r.clock + r.len);
            var t := ApplyRange(s, client, r);
            && (Held(t, id) <==> Held(s, id))
            && (IsDead(t, id) <==>
                  Takes(s, client, r, id) || (IsDead(s, id) && !CutOff(s, lo, id) && !CutOff(SplitAt(s, lo), hi, id)))
            && Cut(t, lo) && Cut(t, hi) && (Cut(s, id) ==> Cut(t, id))
  {
    hide Inv, SplitAt, MarkRange, InRange;
    var lo, hi := Id(client, r.clock), Id(client, r.clock + r.len);
    var a := SplitAt(s, lo);
    var b := SplitAt(a, hi);
    SplitAtUnit(s, lo, id);
    SplitItem(s, lo, id);
    SplitKeepsInv(s, lo);
    SplitAtUnit(a, hi, id);
    SplitItem(a, hi, id);
    SplitAtUnit(a, hi, lo);
    SplitKeepsInv(a, hi);
    MarkUnit(b, client, r, id);
    if Held(b, id) && id.client == client { BoundedItem(b, client, r, id); }
    MarkKeepsStore(b, client, r);
  }

  lemma MarkKeepsStore(s: DocState, client: nat, r: Range)
    ensures var t := MarkRange(s, client, r); t.store == s.store && t.chains == s.chains && t.ds == s.ds
  {
  }

  /** Where the item of a unit starts after a range was applied. */
  lemma ApplyItem(s: DocState, client: nat, r: Range, id: Id)
    requires Inv(s) && Held(s, id)
    ensures var lo, hi := Id(client, r.clock), Id(client, r.clock + r.len);
            var t, c := ApplyRange(s, client, r), Lookup(s.store, id).value;
            && Held(t, id)
            && Inherits(c, Lookup(t.store, id).value,
                       if CutOff(SplitAt(s, lo), hi, id) then hi else if CutOff(s, lo, id) then lo else c.id)
  {
    hide Inv, SplitAt, MarkRange, CutOff, InRange, Divides;
    var lo, hi := Id(client, r.clock), Id(client, r.clock + r.len);
    SplitItem(s, lo, id);
    SplitKeepsInv(s, lo);
    SplitItem(SplitAt(s, lo), hi, id);
    MarkKeepsStore(SplitAt(SplitAt(s, lo), hi), client, r);
  }

  /** Applying the range deleted the stored units of the range and left every other unit as it was. */
  ghost predicate Exact(s: DocState, client: nat, r: Range) {
    forall id :: ExactAt(s, client, r, id)
  }

  predicate ExactAt(s: DocState, client: nat, r: Range, id: Id) {
    IsDead(ApplyRange(s, client, r), id) <==> IsDead(s, id) || (Held(s, id) && id.client == client && InRange(r, id.clock))
  }

  /** What is cut off at the end of the range was reached across the end of the range before. */
  lemma CutOffReached(s: DocState, client: nat, r: Range, id: Id)
    requires Inv(s) && Held(s, id) && !Takes(s, client, r, id)
    requires var lo, hi := Id(client, r.clock), Id(client, r.clock + r.len);
             CutOff(s, lo, id) || CutOff(SplitAt(s, lo), hi, id)
    ensures var hi := Id(client, r.clock + r.len);
            Divides(Lookup(s.store, id).value, hi) && hi.clock <= id.clock && Lookup(s.store, hi) == Lookup(s.store, id)
    ensures var t := ApplyRange(s, client, r); Held(t, id) && Lookup(t.store, id).value.id == Id(client, r.clock + r.len)
  {
    hide Inv, SplitAt, ApplyRange;
    var lo, hi := Id(client, r.clock), Id(client, r.clock + r.len);
    var c := Lookup(s.store, id).value;
    LookupSized(s, id);
    SplitItem(s, lo, id);
    SplitKeepsInv(s, lo);
    LookupSized(SplitAt(s, lo), id);
    ApplyItem(s, client, r, id);
    SameItem(s, id, hi);
  }

  /**
   * When a delete range is exact. Splitting does not copy the deleted flag, so a range that ends
   * strictly inside a deleted string brings the rest of that string back; and an item that cannot be
   * divided is deleted as a whole or not at all. In every other case exactly the stored units of the
   * range become deleted.
   */
  lemma ExactUnlessAcross(s: DocState, client: nat, r: Range)
    requires Inv(s)
    ensures var lo, hi := Id(client, r.clock), Id(client, r.clock + r.len);
            Exact(s, client, r) <==> !DeadAcross(s, hi) && (r.len > 0 ==> !SolidAcross(s, lo) && !SolidAcross(s, hi))
  {
    hide Inv, SplitAt, ApplyRange;
    var lo, hi := Id(client, r.clock), Id(client, r.clock + r.len);
    if !DeadAcross(s, hi) && (r.len > 0 ==> !SolidAcross(s, lo) && !SolidAcross(s, hi)) {
      forall id ensures ExactAt(s, client, r, id) { ExactElsewhere(s, client, r, id); }
    } else if DeadAcross(s, hi) {
      AcrossIsRevived(s, client, r);
      assert !ExactAt(s, client, r, hi);
    } else {
      var id := SolidWrong(s, client, r);
      assert !ExactAt(s, client, r, id);
    }
  }

  lemma ExactElsewhere(s: DocState, client: nat, r: Range, id: Id)
    requires Inv(s)
    requires var lo, hi := Id(client, r.clock), Id(client, r.clock + r.len);
             !DeadAcross(s, hi) && (r.len > 0 ==> !SolidAcross(s, lo) && !SolidAcross(s, hi))
    ensures ExactAt(s, client, r, id)
  {
    hide Inv, SplitAt, ApplyRange, CutOff, Divides;
    var lo, hi := Id(client, r.clock), Id(client, r.clock + r.len);
    ApplyUnit(s, client, r, id);
    if Held(s, id) && id.client == client {
      var c := Lookup(s.store, id).value;
      if !Takes(s, client, r, id) && (CutOff(s, lo, id) || CutOff(SplitAt(s, lo), hi, id)) { CutOffReached(s, client, r, id); }
      if Covers(c, lo) { SameItem(s, id, lo); }
      if Covers(c, hi) { SameItem(s, id, hi); }
    } else if Held(s, id) {
      NotCutOff(s, client, r, id);
    }
  }

  lemma NotCutOff(s: DocState, client: nat, r: Range, id: Id)
    requires Inv(s) && Held(s, id) && id.client != client
    ensures var lo, hi := Id(client, r.clock), Id(client, r.clock + r.len); !CutOff(s, lo, id) && !CutOff(SplitAt(s, lo), hi, id)
  {
  }

  /** The end of the range is inside a deleted string: the unit there is deleted before and not afterwards. */
  lemma AcrossIsRevived(s: DocState, client: nat, r: Range)
    requires Inv(s) && DeadAcross(s, Id(client, r.clock + r.len))
    ensures !ExactAt(s, client, r, Id(client, r.clock + r.len))
  {
    hide ApplyRange;
    var lo, hi := Id(client, r.clock), Id(client, r.clock + r.len);
    ApplyUnit(s, client, r, hi);
    SplitLookup(s, lo, hi);
    LookupSized(s, hi);
  }

  /** A boundary is inside an item that cannot be divided: one of its units is deleted wrongly, or not deleted. */
  lemma SolidWrong(s: DocState, client: nat, r: Range) returns (id: Id)
    requires Inv(s) && r.len > 0
    requires SolidAcross(s, Id(client, r.clock)) || SolidAcross(s, Id(client, r.clock + r.len))
    ensures !ExactAt(s, client, r, id)
  {
    hide Inv, SplitAt, ApplyRange;
    var lo, hi := Id(client, r.clock), Id(client, r.clock + r.len);
    if SolidAcross(s, lo) {
      id := lo;
    } else {
      var c := Lookup(s.store, hi).value;
      id := if r.clock <= c.id.clock then hi else Id(client, hi.clock - 1);
      SameItem(s, hi, id);
    }
    ApplyUnit(s, client, r, id);
  }
}
