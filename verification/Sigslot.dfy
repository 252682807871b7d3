/** Signals and slot holders: a signal lists its connections in order, and a holder keeps the set of
    signals that are connected to it, so that either side can be destroyed first. */
module Sigslot {

  datatype Connection = Connection(dest: HasSlots, slot: int)

  /** The holders some connections lead to. */
  ghost function Dests(conns: seq<Connection>): set<HasSlots> {
    if conns == [] then {} else Dests(conns[..|conns| - 1]) + {conns[|conns| - 1].dest}
  }

  lemma {:induction false} DestsConcat(a: seq<Connection>, b: seq<Connection>)
    ensures Dests(a + b) == Dests(a) + Dests(b)
  {
    if b == [] {
      assert a + b == a;
    } else {
      assert (a + b)[..|a + b| - 1] == a + b[..|b| - 1];
      DestsConcat(a, b[..|b| - 1]);
    }
  }

  /** The same set with one connection more. */
  lemma DestsSnoc(conns: seq<Connection>, c: Connection)
    ensures Dests([]) == {} && Dests([c]) == {c.dest} && Dests(conns + [c]) == Dests(conns) + {c.dest}
  {
    assert [c][..0] == [] && (conns + [c])[..|conns|] == conns;
  }

  lemma DestOf(conns: seq<Connection>, k: nat)
    requires k < |conns|
    ensures conns[k].dest in Dests(conns)
    ensures Dests(conns[..k + 1]) == Dests(conns[..k]) + {conns[k].dest}
    ensures Dests(conns[..k]) <= Dests(conns)
  {
    assert conns == conns[..k + 1] + conns[k + 1..];
    DestsConcat(conns[..k + 1], conns[k + 1..]);
    assert conns[..k + 1][..k] == conns[..k];
  }

  lemma NoDests()
    ensures Dests([]) == {}
  {
  }

  /** The connections that lead elsewhere. */
  function Without(conns: seq<Connection>, h: HasSlots): seq<Connection> {
    if conns == [] then []
    else Without(conns[..|conns| - 1], h) + if conns[|conns| - 1].dest == h then [] else [conns[|conns| - 1]]
  }

  lemma WithoutSnoc(conns: seq<Connection>, h: HasSlots)
    ensures Without([], h) == []
    ensures conns != [] ==>
              Without(conns, h) == Without(conns[..|conns| - 1], h)
                                   + if conns[|conns| - 1].dest == h then [] else [conns[|conns| - 1]]
  {
  }

  lemma {:induction false} WithoutDests(conns: seq<Connection>, h: HasSlots)
    ensures Dests(Without(conns, h)) == Dests(conns) - {h}
  {
    if conns != [] {
      hide Dests;
      var n := |conns| - 1;
      WithoutDests(conns[..n], h);
      DestsSnoc(Without(conns[..n], h), conns[n]);
      DestsSnoc(conns[..n], conns[n]);
      assert conns == conns[..n] + [conns[n]] && Without(conns[..n], h) + [] == Without(conns[..n], h);
    } else {
      assert Dests([]) == {};
    }
  }

  /** The copies of the connections to `from`, in order, leading to `to` instead. */
  function Copies(conns: seq<Connection>, from: HasSlots, to: HasSlots): seq<Connection> {
    if conns == [] then []
    else Copies(conns[..|conns| - 1], from, to)
         + if conns[|conns| - 1].dest == from then [Connection(to, conns[|conns| - 1].slot)] else []
  }

  lemma {:induction false} CopiesDests(conns: seq<Connection>, from: HasSlots, to: HasSlots)
    ensures Dests(Copies(conns, from, to)) == if from in Dests(conns) then {to} else {}
    ensures forall k :: 0 <= k < |Copies(conns, from, to)| ==> Copies(conns, from, to)[k].dest == to
  {
    hide Copies, Dests;
    CopiesSnoc(conns, from, to);
    DestsSnoc([], Connection(from, 0));
    if conns != [] {
      var n := |conns| - 1;
      CopiesDests(conns[..n], from, to);
      DestsSnoc(Copies(conns[..n], from, to), Connection(to, conns[n].slot));
      DestsSnoc(conns[..n], conns[n]);
      assert conns[..n] + [conns[n]] == conns;
    }
  }

  lemma CopiesSnoc(conns: seq<Connection>, from: HasSlots, to: HasSlots)
    ensures Copies([], from, to) == []
    ensures conns != [] ==>
              var before := Copies(conns[..|conns| - 1], from, to);
              Copies(conns, from, to) ==
              if conns[|conns| - 1].dest == from then before + [Connection(to, conns[|conns| - 1].slot)] else before
  {
  }

  /** The number of connections to one holder. */
  function CountTo(conns: seq<Connection>, h: HasSlots): nat {
    if conns == [] then 0
    else CountTo(conns[..|conns| - 1], h) + if conns[|conns| - 1].dest == h then 1 else 0
  }

  lemma {:induction false} CopiesCount(conns: seq<Connection>, from: HasSlots, to: HasSlots)
    ensures |Copies(conns, from, to)| == CountTo(conns, from)
  {
    if conns != [] {
      CopiesCount(conns[..|conns| - 1], from, to);
    }
  }

  /** The copy of a connection keeps its slot and its place among those to the same holder. */
  lemma {:induction false} CopyOfConnection(conns: seq<Connection>, from: HasSlots, to: HasSlots, i: nat)
    requires i < |conns| && conns[i].dest == from
    ensures CountTo(conns[..i], from) < |Copies(conns, from, to)| == CountTo(conns, from)
    ensures Copies(conns, from, to)[CountTo(conns[..i], from)] == Connection(to, conns[i].slot)
  {
    var n := |conns| - 1;
    CopiesCount(conns, from, to);
    CopiesCount(conns[..n], from, to);
    if i < n {
      CopyOfConnection(conns[..n], from, to, i);
      assert conns[..n][..i] == conns[..i];
    }
  }

  lemma {:induction false} WithoutCount(conns: seq<Connection>, h: HasSlots)
    ensures |Without(conns, h)| == |conns| - CountTo(conns, h)
  {
    if conns != [] {
      WithoutCount(conns[..|conns| - 1], h);
    }
  }

  /** A connection to another holder stays as it is, and stays in its place among those. */
  lemma {:induction false} ConnectionKept(conns: seq<Connection>, h: HasSlots, i: nat)
    requires i < |conns| && conns[i].dest != h
    ensures 0 <= i - CountTo(conns[..i], h) < |Without(conns, h)| == |conns| - CountTo(conns, h)
    ensures Without(conns, h)[i - CountTo(conns[..i], h)] == conns[i]
  {
    var n := |conns| - 1;
    WithoutCount(conns, h);
    WithoutCount(conns[..n], h);
    if i < n {
      ConnectionKept(conns[..n], h, i);
      assert conns[..n][..i] == conns[..i];
    }
  }

  /** Nothing but connections to other holders, each as it was and in its place. */
  ghost predicate OnlyThoseTo(was: seq<Connection>, h: HasSlots, now: seq<Connection>) {
    && |now| == |was| - CountTo(was, h)
    && forall i :: 0 <= i < |was| && was[i].dest != h ==>
         0 <= i - CountTo(was[..i], h) < |now| && now[i - CountTo(was[..i], h)] == was[i]
  }

  /** All connections as they were, and then one to `to` for each to `from`, in order, with its slot. */
  ghost predicate WithCopies(was: seq<Connection>, from: HasSlots, to: HasSlots, now: seq<Connection>) {
    && |now| == |was| + CountTo(was, from) && was <= now
    && forall i :: 0 <= i < |was| && was[i].dest == from ==>
         |was| + CountTo(was[..i], from) < |now|
         && now[|was| + CountTo(was[..i], from)] == Connection(to, was[i].slot)
  }

  lemma CopiesFollow(was: seq<Connection>, from: HasSlots, to: HasSlots)
    ensures WithCopies(was, from, to, was + Copies(was, from, to))
  {
    hide CountTo, Copies;
    CopiesCount(was, from, to);
    forall i | 0 <= i < |was| && was[i].dest == from
      ensures CountTo(was[..i], from) < CountTo(was, from)
      ensures (was + Copies(was, from, to))[|was| + CountTo(was[..i], from)] == Connection(to, was[i].slot)
    {
      CopyOfConnection(was, from, to, i);
    }
  }

  lemma OthersStay(was: seq<Connection>, h: HasSlots)
    ensures OnlyThoseTo(was, h, Without(was, h))
  {
    hide CountTo, Without;
    WithoutCount(was, h);
    forall i | 0 <= i < |was| && was[i].dest != h
      ensures 0 <= i - CountTo(was[..i], h) < |Without(was, h)|
      ensures Without(was, h)[i - CountTo(was[..i], h)] == was[i]
    {
      ConnectionKept(was, h, i);
    }
  }

  lemma {:induction false} CountOfDests(conns: seq<Connection>, h: HasSlots)
    ensures h in Dests(conns) <==> CountTo(conns, h) > 0
  {
    if conns != [] {
      CountOfDests(conns[..|conns| - 1], h);
    }
  }

  lemma {:induction false} CountConcat(a: seq<Connection>, b: seq<Connection>, h: HasSlots)
    ensures CountTo(a + b, h) == CountTo(a, h) + CountTo(b, h)
  {
    if b == [] {
      assert a + b == a;
    } else {
      assert (a + b)[..|a + b| - 1] == a + b[..|b| - 1];
      CountConcat(a, b[..|b| - 1], h);
    }
  }

  /** Taking out the first connection to `h` leaves the others. */
  lemma RemoveFirst(conns: seq<Connection>, h: HasSlots, k: nat)
    requires k < |conns| && conns[k].dest == h
    ensures var rest := conns[..k] + conns[k + 1..];
            && Dests(rest) + {h} == Dests(conns)
            && (h in Dests(rest) <==> CountTo(conns, h) > 1)
  {
    var a, b, c := conns[..k], [conns[k]], conns[k + 1..];
    assert conns == a + b + c;
    DestsConcat(a + b, c);
    DestsConcat(a, b);
    DestsConcat(a, c);
    CountConcat(a + b, c, h);
    CountConcat(a, b, h);
    CountConcat(a, c, h);
    CountOfDests(a + c, h);
    assert b[..0] == [];
    assert Dests(b) == {h} && CountTo(b, h) == 1;
  }

  /** Both sides agree: among the live objects, a signal is a holder's sender exactly if it has a
      connection to it, and neither side refers to anything that is not live. */
  ghost predicate Linked(signals: set<Signal1>, holders: set<HasSlots>)
    reads signals, holders
  {
    && (forall s :: s in signals ==> Dests(s.m_connected_slots) <= holders)
    && (forall h :: h in holders ==> h.m_senders <= signals)
    && (forall s, h :: s in signals && h in holders ==> (s in h.m_senders <==> h in Dests(s.m_connected_slots)))
  }

  class HasSlots {
    var m_senders: set<Signal1>

    constructor ()
      ensures m_senders == {}
    {
      m_senders := {};
    }

    /** The copy is connected wherever the original is, by copies of its connections. */
    constructor Copy(hs: HasSlots, ghost signals: set<Signal1>, ghost holders: set<HasSlots>)
      requires Linked(signals, holders) && hs in holders
      modifies hs.m_senders
      ensures m_senders == hs.m_senders
      ensures forall s :: s in signals ==>
                s.m_connected_slots == old(s.m_connected_slots) + Copies(old(s.m_connected_slots), hs, this)
      ensures forall s :: s in signals ==> WithCopies(old(s.m_connected_slots), hs, this, s.m_connected_slots)
      ensures Linked(signals, holders + {this})
    {
      m_senders := {};
      new;
      hide Copies, WithCopies, Dests, CountTo;
      var rest := hs.m_senders;
      while rest != {}
        invariant rest <= hs.m_senders == old(hs.m_senders) && m_senders == hs.m_senders - rest
        invariant hs != this && this !in holders
        invariant forall h :: h in holders ==> h.m_senders == old(h.m_senders)
        invariant forall s :: s in signals ==>
                    s.m_connected_slots == old(s.m_connected_slots) +
                    if s in m_senders then Copies(old(s.m_connected_slots), hs, this) else []
        decreases rest
      {
        var s :| s in rest;
        s.SlotDuplicate(hs, this);
        m_senders := m_senders + {s};
        rest := rest - {s};
      }
      forall s | s in signals
        ensures s.m_connected_slots == old(s.m_connected_slots) + Copies(old(s.m_connected_slots), hs, this)
        ensures WithCopies(old(s.m_connected_slots), hs, this, s.m_connected_slots)
        ensures Dests(s.m_connected_slots) == Dests(old(s.m_connected_slots)) + if s in m_senders then {this} else {}
      {
        CopiesFollow(old(s.m_connected_slots), hs, this);
        CopiesDests(old(s.m_connected_slots), hs, this);
        CopiesCount(old(s.m_connected_slots), hs, this);
        CountOfDests(old(s.m_connected_slots), hs);
        DestsConcat(old(s.m_connected_slots), Copies(old(s.m_connected_slots), hs, this));
      }
    }

    method SignalConnect(sender: Signal1)
      modifies this
      ensures m_senders == old(m_senders) + {sender}
    {
      m_senders := m_senders + {sender};
    }

    method SignalDisconnect(sender: Signal1)
      modifies this
      ensures m_senders == old(m_senders) - {sender}
    {
      m_senders := m_senders - {sender};
    }

    /** Also what the destructor does: afterwards no live signal refers to this holder. */
    method DisconnectAll(ghost signals: set<Signal1>, ghost holders: set<HasSlots>)
      requires Linked(signals, holders) && this in holders
      modifies this, m_senders
      ensures m_senders == {}
      ensures forall s :: s in signals ==> s.m_connected_slots == Without(old(s.m_connected_slots), this)
      ensures forall s :: s in signals ==> OnlyThoseTo(old(s.m_connected_slots), this, s.m_connected_slots)
      ensures forall s :: s in signals ==> this !in Dests(s.m_connected_slots)
      ensures Linked(signals, holders) && Linked(signals, holders - {this})
    {
      hide Without, OnlyThoseTo, Dests, CountTo;
      var rest := m_senders;
      while rest != {}
        invariant rest <= m_senders == old(m_senders)
        invariant forall h :: h in holders ==> h.m_senders == old(h.m_senders)
        invariant forall s :: s in signals ==>
                    s.m_connected_slots == if s in m_senders && s !in rest
                                           then Without(old(s.m_connected_slots), this) else old(s.m_connected_slots)
        decreases rest
      {
        var s :| s in rest;
        s.SlotDisconnect(this);
        rest := rest - {s};
      }
      forall s | s in signals
        ensures s.m_connected_slots == Without(old(s.m_connected_slots), this)
        ensures OnlyThoseTo(old(s.m_connected_slots), this, s.m_connected_slots)
        ensures Dests(s.m_connected_slots) == Dests(old(s.m_connected_slots)) - {this}
      {
        OthersStay(old(s.m_connected_slots), this);
        WithoutDests(old(s.m_connected_slots), this);
        if this !in Dests(old(s.m_connected_slots)) {
          WithoutNothing(old(s.m_connected_slots), this);
        }
      }
      m_senders := {};
    }
  }

  lemma {:induction false} WithoutNothing(conns: seq<Connection>, h: HasSlots)
    requires h !in Dests(conns)
    ensures Without(conns, h) == conns
  {
    if conns != [] {
      WithoutNothing(conns[..|conns| - 1], h);
    }
  }

  class Signal1 {
    var m_connected_slots: seq<Connection>

    constructor ()
      ensures m_connected_slots == []
    {
      m_connected_slots := [];
    }

    /** A copied signal has the same connections, and every holder knows of it. */
    constructor Copy(s: Signal1, ghost signals: set<Signal1>, ghost holders: set<HasSlots>)
      requires Linked(signals, holders) && s in signals
      modifies holders
      ensures m_connected_slots == s.m_connected_slots == old(s.m_connected_slots)
      ensures Linked(signals + {this}, holders)
    {
      m_connected_slots := [];
      new;
      NoDests();
      hide Dests;
      for i := 0 to |s.m_connected_slots|
        invariant s.m_connected_slots == old(s.m_connected_slots)
        invariant m_connected_slots == s.m_connected_slots[..i]
        invariant forall t :: t in signals ==> t.m_connected_slots == old(t.m_connected_slots)
        invariant forall h :: h in holders ==>
                    h.m_senders == old(h.m_senders) + if h in Dests(s.m_connected_slots[..i]) then {this} else {}
      {
        var c := s.m_connected_slots[i];
        DestOf(s.m_connected_slots, i);
        c.dest.SignalConnect(this);
        m_connected_slots := m_connected_slots + [c];
        assert m_connected_slots == s.m_connected_slots[..i + 1];
      }
      assert s.m_connected_slots[..|s.m_connected_slots|] == s.m_connected_slots;
    }

    method Connect(pclass: HasSlots, slot: int, ghost signals: set<Signal1>, ghost holders: set<HasSlots>)
      requires Linked(signals, holders) && this in signals && pclass in holders
      modifies this, pclass
      ensures m_connected_slots == old(m_connected_slots) + [Connection(pclass, slot)]
      ensures Linked(signals, holders)
    {
      ghost var c := [Connection(pclass, slot)];
      DestsConcat(m_connected_slots, c);
      assert c[..0] == [];
      assert Dests(c) == {pclass};
      m_connected_slots := m_connected_slots + [Connection(pclass, slot)];
      pclass.SignalConnect(this);
    }

    /** Drops the first connection to the holder, and itself from the holder's senders: the two
        sides still agree exactly if that was the only one. */
    method Disconnect(pclass: HasSlots, ghost signals: set<Signal1>, ghost holders: set<HasSlots>)
      requires Linked(signals, holders) && this in signals && pclass in holders
      modifies this, pclass
      ensures CountTo(m_connected_slots, pclass) == if old(CountTo(m_connected_slots, pclass)) == 0 then 0
                                                    else old(CountTo(m_connected_slots, pclass)) - 1
      ensures old(CountTo(m_connected_slots, pclass)) == 0 ==> m_connected_slots == old(m_connected_slots)
      ensures old(CountTo(m_connected_slots, pclass)) > 0 ==>
                exists k :: 0 <= k < |old(m_connected_slots)| && old(m_connected_slots)[k].dest == pclass
                            && CountTo(old(m_connected_slots)[..k], pclass) == 0
                            && m_connected_slots == old(m_connected_slots)[..k] + old(m_connected_slots)[k + 1..]
      ensures Linked(signals, holders) <==> old(CountTo(m_connected_slots, pclass)) <= 1
    {
      ghost var conns := m_connected_slots;
      for i := 0 to |m_connected_slots|
        invariant m_connected_slots == conns && pclass.m_senders == old(pclass.m_senders)
        invariant CountTo(conns[..i], pclass) == 0
        invariant Linked(signals, holders)
      {
        assert conns[..i + 1][..i] == conns[..i];
        if m_connected_slots[i].dest == pclass {
          RemoveFirst(conns, pclass, i);
          CountWithout(conns, pclass, i);
          m_connected_slots := m_connected_slots[..i] + m_connected_slots[i + 1..];
          pclass.SignalDisconnect(this);
          return;
        }
      }
      assert conns[..|conns|] == conns;
    }

    /** Also what the destructor does: afterwards no holder knows of this signal. */
    method DisconnectAll(ghost signals: set<Signal1>, ghost holders: set<HasSlots>)
      requires Linked(signals, holders) && this in signals
      modifies this, holders
      ensures m_connected_slots == []
      ensures forall h :: h in holders ==> h.m_senders == old(h.m_senders) - {this}
      ensures Linked(signals, holders) && Linked(signals - {this}, holders)
    {
      NoDests();
      assert m_connected_slots[..0] == [];
      hide Dests;
      for i := 0 to |m_connected_slots|
        invariant m_connected_slots == old(m_connected_slots)
        invariant forall t :: t in signals ==> t.m_connected_slots == old(t.m_connected_slots)
        invariant forall h :: h in holders ==>
                    h.m_senders == old(h.m_senders) - if h in Dests(m_connected_slots[..i]) then {this} else {}
      {
        DestOf(m_connected_slots, i);
        m_connected_slots[i].dest.SignalDisconnect(this);
      }
      assert m_connected_slots[..|m_connected_slots|] == m_connected_slots;
      m_connected_slots := [];
    }

    method SlotDisconnect(pslot: HasSlots)
      modifies this
      ensures m_connected_slots == Without(old(m_connected_slots), pslot)
      ensures OnlyThoseTo(old(m_connected_slots), pslot, m_connected_slots)
    {
      OthersStay(m_connected_slots, pslot);
      hide Without, OnlyThoseTo;
      ghost var conns := m_connected_slots;
      var i := 0;
      ghost var seen := 0;
      assert conns[..0] == [];
      WithoutSnoc([], pslot);
      while i < |m_connected_slots|
        invariant 0 <= i <= |m_connected_slots| && i <= seen <= |conns|
        invariant m_connected_slots[..i] == Without(conns[..seen], pslot)
        invariant m_connected_slots[i..] == conns[seen..]
        decreases |m_connected_slots| - i
      {
        ghost var kept := m_connected_slots[..i];
        assert m_connected_slots[i] == m_connected_slots[i..][0] == conns[seen];
        assert m_connected_slots[i + 1..] == m_connected_slots[i..][1..] == conns[seen..][1..] == conns[seen + 1..];
        assert conns[..seen + 1] == conns[..seen] + [conns[seen]];
        WithoutSnoc(conns[..seen + 1], pslot);
        assert conns[..seen + 1][..seen] == conns[..seen];
        if m_connected_slots[i].dest == pslot {
          assert kept + [] == kept;
          m_connected_slots := m_connected_slots[..i] + m_connected_slots[i + 1..];
          assert m_connected_slots[..i] == kept;
        } else {
          assert m_connected_slots[..i + 1] == kept + [m_connected_slots[i]];
          i := i + 1;
        }
        seen := seen + 1;
      }
      assert conns[..seen] == conns && m_connected_slots[..i] == m_connected_slots;
    }

    /** Walks the very list it appends to, and still ends with one copy per old connection. */
    method SlotDuplicate(oldtarget: HasSlots, newtarget: HasSlots)
      requires oldtarget != newtarget
      modifies this
      ensures m_connected_slots == old(m_connected_slots) + Copies(old(m_connected_slots), oldtarget, newtarget)
      ensures WithCopies(old(m_connected_slots), oldtarget, newtarget, m_connected_slots)
    {
      CopiesFollow(m_connected_slots, oldtarget, newtarget);
      hide Copies, WithCopies, Dests;
      CopiesSnoc([], oldtarget, newtarget);
      ghost var conns := m_connected_slots;
      ghost var n := |conns|;
      assert conns[..0] == [];
      var i := 0;
      while i < |m_connected_slots|
        invariant 0 <= i <= |m_connected_slots|
        invariant i <= n ==> m_connected_slots == conns + Copies(conns[..i], oldtarget, newtarget)
        invariant i > n ==> m_connected_slots == conns + Copies(conns, oldtarget, newtarget)
        decreases if i < n then n - i else 0, |m_connected_slots| - i
      {
        if i < n {
          assert m_connected_slots[i] == conns[i];
          assert conns[..i + 1][..i] == conns[..i];
          CopiesSnoc(conns[..i + 1], oldtarget, newtarget);
        } else {
          assert conns[..n] == conns;
          CopiesDests(conns, oldtarget, newtarget);
        }
        if m_connected_slots[i].dest == oldtarget {
          m_connected_slots := m_connected_slots + [Connection(newtarget, m_connected_slots[i].slot)];
        }
        i := i + 1;
      }
      assert conns[..n] == conns;
    }

    /** Calls every slot once, in the order of connection. */
    method Emit(a1: int) returns (calls: seq<(HasSlots, int, int)>)
      ensures |calls| == |m_connected_slots|
      ensures forall k :: 0 <= k < |calls| ==> calls[k] == (m_connected_slots[k].dest, m_connected_slots[k].slot, a1)
    {
      calls := [];
      for i := 0 to |m_connected_slots|
        invariant |calls| == i
        invariant forall k :: 0 <= k < i ==> calls[k] == (m_connected_slots[k].dest, m_connected_slots[k].slot, a1)
      {
        calls := calls + [(m_connected_slots[i].dest, m_connected_slots[i].slot, a1)];
      }
    }
  }

  lemma CountWithout(conns: seq<Connection>, h: HasSlots, k: nat)
    requires k < |conns| && conns[k].dest == h
    ensures CountTo(conns[..k] + conns[k + 1..], h) == CountTo(conns, h) - 1
  {
    assert conns == conns[..k] + [conns[k]] + conns[k + 1..];
    CountConcat(conns[..k] + [conns[k]], conns[k + 1..], h);
    CountConcat(conns[..k], [conns[k]], h);
    CountConcat(conns[..k], conns[k + 1..], h);
    assert [conns[k]][..0] == [];
  }

  /** In every linked state a destroyed holder has left no trace: what is dropped together with its
      senders' connections cannot be reached from a live signal. */
  lemma NoDanglingConnection(signals: set<Signal1>, holders: set<HasSlots>, s: Signal1, k: nat)
    requires Linked(signals, holders) && s in signals && k < |s.m_connected_slots|
    ensures s.m_connected_slots[k].dest in holders
    ensures s in s.m_connected_slots[k].dest.m_senders
  {
    DestOf(s.m_connected_slots, k);
  }

  /** A holder is copied and a signal emitted: everyone is called as before, and then the copy, once for
      each call of the original, in order, at the same slot and with the same argument. */
  method EmitToCopy(s: Signal1, hs: HasSlots, a1: int, ghost signals: set<Signal1>, ghost holders: set<HasSlots>)
    returns (copy: HasSlots, calls: seq<(HasSlots, int, int)>)
    requires Linked(signals, holders) && s in signals && hs in holders
    modifies hs.m_senders
    ensures fresh(copy) && Linked(signals, holders + {copy})
    ensures var was := old(s.m_connected_slots);
            && |calls| == |was| + CountTo(was, hs)
            && (forall i :: 0 <= i < |was| ==> calls[i] == (was[i].dest, was[i].slot, a1))
            && (forall i :: 0 <= i < |was| && was[i].dest == hs ==>
                  |was| + CountTo(was[..i], hs) < |calls|
                  && calls[|was| + CountTo(was[..i], hs)] == (copy, was[i].slot, a1))
  {
    hide CountTo, Copies, Dests;
    copy := new HasSlots.Copy(hs, signals, holders);
    calls := s.Emit(a1);
  }
}
