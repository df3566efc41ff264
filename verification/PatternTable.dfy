/** patn.c of memtest86+ on the mutable pattern table v->patn, v->numpatn. */
module PatternTable {
  import opened Wrappers
  import opened Cubes
  import opened BadRam

  // combicost()
  method CostOf(p: Pair, q: Pair) returns (cost: nat)
    ensures cost == CombiCost(p, q)
  {
    var cost1 := CountAddresses(p.mask);
    cost := CountAddresses(Combine(p, q).mask);
    cost := (cost - cost1) % ULONG;
  }

  class Patterns {
    const patn: array<Pair>
    var numpatn: nat

    ghost predicate Valid()
      reads this, patn
    {
      patn.Length == BADRAM_MAXPATNS && numpatn <= BADRAM_MAXPATNS
    }

    // The table as a value.
    ghost function Value(): Table
      reads this, patn
    {
      Table(patn[..], numpatn)
    }

    constructor (blank: Pair)
      ensures Valid() && fresh(patn) && numpatn == 0
    {
      patn := new Pair[BADRAM_MAXPATNS](_ => blank);
      numpatn := 0;
    }

    method CheapIndexOf(p: Pair, mincost: nat) returns (idx: int)
      requires Valid()
      ensures idx == match CheapIndex(Value(), p, mincost) case None => -1 case Some(k) => k
    {
      var i, least: nat := numpatn, mincost;
      idx := -1;
      ghost var best: Option<nat> := None;
      while i > 0
        invariant 0 <= i <= numpatn
        invariant idx == match best case None => -1 case Some(k) => k
        invariant CheapFrom(Costs(patn[..], p), least, best, i) == CheapIndex(Value(), p, mincost)
      {
        i := i - 1;
        assert Costs(patn[..], p)[i] == CombiCost(patn[i], p);
        var tmpcost := CostOf(patn[i], p);
        if tmpcost < least {
          least, idx, best := tmpcost, i, Some(i);
        }
      }
    }

    method Relocate(idx: nat) returns (newidx: int)
      requires Valid() && idx < BADRAM_MAXPATNS
      modifies patn
      ensures Value() == old(Value())
      ensures newidx == match RelocateIdx(old(Value()), idx) case None => -1 case Some(k) => k
    {
      ghost var t := Value();
      var p := patn[idx];
      patn[idx] := p.(adr := Not(p.adr));
      assert patn[..] == Hidden(t, idx).patn;
      var bound := CountAddresses(p.mask);
      newidx := CheapIndexOf(p, 1 + bound);
      patn[idx] := p;
      assert patn[..] == t.patn;
    }

    // One merge; the caller has found newidx.
    method MergeInto(idx: nat, newidx: nat)
      requires Valid() && idx < BADRAM_MAXPATNS && newidx < numpatn
      modifies this, patn
      ensures Valid() && Value() == Merge(old(Value()), idx, newidx)
    {
      ghost var t := Value();
      patn[newidx] := Combine(patn[newidx], patn[idx]);
      assert patn[..] == t.patn[newidx := Combine(t.patn[newidx], t.patn[idx])];
      numpatn := numpatn - 1;
      if idx < numpatn {
        patn[idx] := patn[numpatn];
      }
      assert patn[..] == Merge(t, idx, newidx).patn;
    }

    method RelocateFree(idx: nat)
      requires Valid() && idx < BADRAM_MAXPATNS
      modifies this, patn
      ensures Valid() && Value() == RelocateIfFree(old(Value()), idx)
      decreases numpatn
    {
      var newidx := Relocate(idx);
      if newidx >= 0 {
        RelocateIdxActive(Value(), idx);
        MergeInto(idx, newidx);
        RelocateFree(newidx);
      }
    }

    /** insertaddress(): the table and the result are those of BadRam.InsertAddress. */
    method Insert(adr: word) returns (changed: bool)
      requires Valid() && Longwords(Value())
      modifies this, patn
      ensures Valid() && (Value(), changed) == InsertAddress(old(Value()), adr)
      ensures changed ==> exists r: Table, k: nat ::
        && r.Valid() && k < BADRAM_MAXPATNS && Enters(old(Value()), Word(adr), r, k) && Value() == RelocateIfFree(r, k)
    {
      ghost var t := Value();
      var idx := CheapIndexOf(Word(adr), 1);
      if idx != -1 {
        return false;
      }
      if numpatn < BADRAM_MAXPATNS {
        patn[numpatn] := Word(adr);
        numpatn := numpatn + 1;
        assert Value() == Relocation(t, adr).0;
        RelocateFree(numpatn - 1);
      } else {
        FullTableHasCheapest(t, Word(adr));
        idx := CheapIndexOf(Word(adr), ULONG - 1);
        patn[idx] := Combine(patn[idx], Word(adr));
        assert Value() == Relocation(t, adr).0;
        RelocateFree(idx);
      }
      changed := true;
      InsertEnters(t, adr);
      assert Enters(t, Word(adr), Relocation(t, adr).0, Relocation(t, adr).1);
    }
  }
}
