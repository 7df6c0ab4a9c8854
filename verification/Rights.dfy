/** What a page may be used for: the processor combines the rights of all entries that a walk reads (section 4.6 of the
    Intel SDM, volume 3A). */
module Rights {
  import opened Common
  import opened Words
  import opened Pte
  import opened PageTable

  /** The entries that the walk for page `v` reads, the leaf last; empty if there is no leaf. */
  function Trace(m: Mem, root: nat, v: nat): seq<nat>
    requires v < PAGES
  {
    var e4 := Entry(m, root, I4(v));
    var e3 := Entry(m, Addr(e4), I3(v));
    var e2 := Entry(m, Addr(e3), I2(v));
    match Lookup(m, root, v)
    case Unmapped => []
    case Giant(e) => [e4, e]
    case Huge(e) => [e4, e3, e]
    case Small(e) => [e4, e3, e2, e]
  }

  /** R/W (bit 1) is set in every entry. */
  predicate Writable(t: seq<nat>) { t != [] && forall i :: 0 <= i < |t| ==> BitAnd(t[i], 0x2) != 0 }

  /** U/S (bit 2) is set in every entry. */
  predicate UserMode(t: seq<nat>) { t != [] && forall i :: 0 <= i < |t| ==> BitAnd(t[i], 0x4) != 0 }

  /** XD (bit 63) is set in no entry. */
  predicate Executable(t: seq<nat>) { t != [] && forall i :: 0 <= i < |t| ==> BitAnd(t[i], 0x8000_0000_0000_0000) == 0 }

  /** A table's own entry is PRESENT and WRITABLE, and nothing else. */
  lemma {:induction false} TableBits(f: nat)
    requires IsFrame(f)
    ensures BitAnd(f + 3, 0x2) != 0 && BitAnd(f + 3, 0x4) == 0 && BitAnd(f + 3, 0x8000_0000_0000_0000) == 0
  {
    hide BitAnd, Pow2;
    Powers();
    MaskField(f + 3, 1, 2, 1, 2);
    MaskField(f + 3, 1, 2, 2, 4);
    MaskField(f + 3, 1, 2, 63, 0x8000_0000_0000_0000);
    var q := f / 0x1000;
    assert f == 0x1000 * q;
    assert (f + 3) / 2 == 0x800 * q + 1 && (f + 3) / 4 == 0x400 * q && (f + 3) / 0x8000_0000_0000_0000 == 0;
  }

  ghost predicate LeadsOn(e: nat) { exists f: nat :: IsFrame(f) && e == f + 3 }

  ghost predicate LeadsTo(t: seq<nat>, l: Leaf)
  {
    && !l.Giant? && (t == [] <==> l.Unmapped?) && (t != [] ==> t[|t| - 1] == l.entry)
    && forall i :: 0 <= i < |t| - 1 ==> LeadsOn(t[i])
  }

  /** The entries above the leaf all lead to tables. */
  lemma {:induction false} TraceTables(m: Mem, tab: Tab, root: nat, v: nat)
    requires Tables(m, tab, root) && v < PAGES
    ensures LeadsTo(Trace(m, root, v), Lookup(m, root, v))
  {
    hide Addr, I4, I3, I2, I1, Present, IsHuge, IsFrame;
    WalkFollowsTab(m, tab, root, v);
    var c := Read(m, tab);
    Prefix(c, tab, v);
    Step(m, tab, Root, I4(v));
    if P1(v) in tab {
      LinkOf(m, tab, P1(v));
      Step(m, tab, P1(v), I3(v));
      if P2(v) in tab {
        LinkOf(m, tab, P2(v));
        Step(m, tab, P2(v), I2(v));
        if P3(v) in tab { LinkOf(m, tab, P3(v)); }
      }
    }
  }

  lemma {:induction false} LinkOf(m: Mem, tab: Tab, w: Where)
    requires Owned(m, tab) && Tree(Read(m, tab), tab) && w in tab && w.Child?
    ensures w.up in tab && IsFrame(tab[w]) && Entry(m, tab[w.up], w.i) == tab[w] + 3
  {
    assert JoinedAt(Read(m, tab), tab, w);
  }

  /** In well-formed tables a page is writable or executable exactly if its own entry says so, and never accessible from
      user mode, because no table entry is. */
  lemma {:induction false} RightsOfLeaf(m: Mem, tab: Tab, root: nat, v: nat)
    requires Tables(m, tab, root) && v < PAGES && !Lookup(m, root, v).Unmapped?
    ensures var t, e := Trace(m, root, v), Lookup(m, root, v).entry;
            && (Writable(t) <==> BitAnd(e, 0x2) != 0) && (Executable(t) <==> BitAnd(e, 0x8000_0000_0000_0000) == 0)
            && !UserMode(t)
  {
    hide Tables, Lookup, BitAnd, IsFrame;
    TraceTables(m, tab, root, v);
    LongTrace(m, root, v);
    var t := Trace(m, root, v);
    forall i | 0 <= i < |t| - 1
      ensures BitAnd(t[i], 0x2) != 0 && BitAnd(t[i], 0x4) == 0 && BitAnd(t[i], 0x8000_0000_0000_0000) == 0
    {
      var f: nat :| IsFrame(f) && t[i] == f + 3;
      TableBits(f);
    }
    assert BitAnd(t[0], 0x4) == 0;
  }

  lemma {:induction false} LongTrace(m: Mem, root: nat, v: nat)
    requires v < PAGES && !Lookup(m, root, v).Unmapped?
    ensures |Trace(m, root, v)| >= 2
  {
    hide Lookup;
  }
}
