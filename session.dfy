/**
 * The session manager of commonCode/session.c: per-client records keyed by
 * (IP address, port) on two lists, bounded by MAX_SESSIONS: the active
 * list, new sessions at the head, doubly linked through prev and next; and
 * the archived list, removed sessions appended at the tail, linked forward
 * through next only (an append to a non-empty archive leaves prev as it was).
 *
 * Memory is an arena: a map from addresses to session records, a pointer is
 * Null or the address of a record, and freeing removes the address. The
 * lists each manager state holds are given by ghost sequences of addresses.
 */
module Sessions {
  import opened ByteOrder

  const MAX_SESSIONS: nat := 2048
  const NOERROR: int := 0
  const ERROR: int := -1

  datatype Ptr = Null | Ref(addr: nat)

  /** The session fields the manager sets; the statistics fields start at zero. */
  datatype Session = Session(
    clientIP: uint32,
    clientPort: uint16,
    isActive: bool,
    errorCount: uint32,
    sessionID: uint32,
    currentArrayIndex: uint32,
    messagesReceived: uint32,
    messagesSent: uint32,
    messagesLost: uint32,
    lastSequenceNum: uint32,
    outOfOrderArrival: uint32,
    prev: Ptr,
    next: Ptr)

  type Heap = map<nat, Session>

  /** What createSession puts in a new record: zeroes, active, no links, and port -1 stored in a uint16. */
  function NewSession(): Session
  {
    Session(0, 0xFFFF, true, 0, 0, 0, 0, 0, 0, 0, 0, Null, Null)
  }

  predicate Matches(s: Session, clientIP: uint32, clientPort: uint16)
  {
    s.clientIP == clientIP && s.clientPort == clientPort
  }

  // ---------------------------------------------------------------------
  // Lists in the arena
  // ---------------------------------------------------------------------

  /** The pointer to refs[i], Null past either end. */
  function PtrAt(refs: seq<nat>, i: int): (p: Ptr)
    ensures p.Ref? <==> 0 <= i < |refs|
  {
    if 0 <= i < |refs| then Ref(refs[i]) else Null
  }

  ghost predicate Distinct(refs: seq<nat>)
  {
    forall i, j :: 0 <= i < j < |refs| ==> refs[i] != refs[j]
  }

  /** Following next pointers from head visits exactly refs, then Null. */
  ghost predicate IsChain(h: Heap, head: Ptr, refs: seq<nat>)
  {
    && head == PtrAt(refs, 0)
    && Distinct(refs)
    && (forall i :: 0 <= i < |refs| ==> refs[i] in h && h[refs[i]].next == PtrAt(refs, i + 1))
  }

  /** Every prev pointer of the list points at the element before it. */
  ghost predicate BackLinked(h: Heap, refs: seq<nat>)
  {
    forall i :: 0 <= i < |refs| ==> refs[i] in h && h[refs[i]].prev == PtrAt(refs, i - 1)
  }

  /** ++ on an unsigned 32-bit counter: wraps to 0 past the largest value. */
  function Inc32(x: uint32): (r: uint32)
    ensures r as int == (x as int + 1) % TWO_32
    ensures x as int < TWO_32 - 1 ==> r as int == x as int + 1
  {
    if x == 0xFFFF_FFFF then 0 else x + 1
  }

  /** The index of the first record of refs with the given key, |refs| when there is none. */
  function FindIndex(h: Heap, refs: seq<nat>, clientIP: uint32, clientPort: uint16): (r: nat)
    requires forall i :: 0 <= i < |refs| ==> refs[i] in h
    ensures r <= |refs|
    ensures r < |refs| ==> Matches(h[refs[r]], clientIP, clientPort)
    ensures forall j :: 0 <= j < r ==> !Matches(h[refs[j]], clientIP, clientPort)
  {
    if refs == [] then 0
    else if Matches(h[refs[0]], clientIP, clientPort) then 0
    else 1 + FindIndex(h, refs[1..], clientIP, clientPort)
  }

  /** The key finds the same record, or none, in refs over h as in refs0 over h0. */
  ghost predicate SameLookup(h0: Heap, refs0: seq<nat>, h: Heap, refs: seq<nat>, clientIP: uint32, clientPort: uint16)
  {
    && (forall i :: 0 <= i < |refs0| ==> refs0[i] in h0)
    && (forall i :: 0 <= i < |refs| ==> refs[i] in h)
    && PtrAt(refs, FindIndex(h, refs, clientIP, clientPort)) == PtrAt(refs0, FindIndex(h0, refs0, clientIP, clientPort))
  }

  /** Over the same records, every key finds the same record. */
  lemma SameLookupRefl(h: Heap, refs: seq<nat>)
    requires forall i :: 0 <= i < |refs| ==> refs[i] in h
    ensures forall ip: uint32, port: uint16 :: SameLookup(h, refs, h, refs, ip, port)
  {
  }

  /** The unlinking statements of removeActive, applied to the record at a. */
  function Unlink(h: Heap, first: Ptr, a: nat): (r: (Heap, Ptr))
    requires a in h
    requires h[a].next.Ref? ==> h[a].next.addr in h
    requires h[a].prev.Ref? ==> h[a].prev.addr in h
    ensures r.0.Keys == h.Keys
  {
    var n := h[a].next;
    var h1 := if n.Ref? then h[n.addr := h[n.addr].(prev := h[a].prev)] else h;
    var p := h1[a].prev;
    var h2 := if p.Ref? then h1[p.addr := h1[p.addr].(next := h1[a].next)] else h1;
    var f := if first == Ref(a) then (if h2[a].prev.Ref? then h2[a].prev else h2[a].next) else first;
    (h2, f)
  }

  /** Unlinking changes only the links of the records, never their contents. */
  lemma UnlinkKeepsContents(h: Heap, first: Ptr, a: nat)
    requires a in h
    requires h[a].next.Ref? ==> h[a].next.addr in h
    requires h[a].prev.Ref? ==> h[a].prev.addr in h
    ensures var r := Unlink(h, first, a);
            forall x :: x in h ==> r.0[x] == h[x].(prev := r.0[x].prev, next := r.0[x].next)
  {
  }

  /** The linking statements of getActive as written: the old head's prev is left as it was. */
  function LinkAtHeadAsWritten(h: Heap, first: Ptr, a: nat, s: Session): (r: (Heap, Ptr))
    ensures r.1 == Ref(a) && r.0.Keys == h.Keys + {a}
    ensures r.0[a] == s.(next := first, prev := Null)
    ensures forall x :: x in h && x != a ==> r.0[x] == h[x]
  {
    (h[a := s.(next := first, prev := Null)], Ref(a))
  }

  /** Linking at the head of a doubly linked list: the old head's prev becomes the new record. */
  function LinkAtHead(h: Heap, first: Ptr, a: nat, s: Session): (r: (Heap, Ptr))
    requires first.Ref? ==> first.addr in h
    requires first != Ref(a)
    ensures r.1 == Ref(a) && r.0.Keys == h.Keys + {a}
    ensures r.0[a] == s.(next := first, prev := Null)
    ensures first.Ref? ==> r.0[first.addr] == h[first.addr].(prev := Ref(a))
    ensures forall x :: x in h && x != a && Ref(x) != first ==> r.0[x] == h[x]
  {
    var h1 := h[a := s.(next := first, prev := Null)];
    (if first.Ref? then h1[first.addr := h1[first.addr].(prev := Ref(a))] else h1, Ref(a))
  }

  /** What the corrected linking statements do to the records. */
  lemma LinkAtHeadEffect(h: Heap, first: Ptr, refs: seq<nat>, a: nat, s: Session)
    requires IsChain(h, first, refs)
    requires a !in refs
    ensures first != Ref(a)
    ensures var r := LinkAtHead(h, first, a, s);
            && r.0.Keys == h.Keys + {a}
            && r.0[a] == s.(next := first, prev := Null)
            && (forall x :: x in h && x != a && Ref(x) != first ==> r.0[x] == h[x])
            && (first.Ref? ==> r.0[first.addr] == h[first.addr].(prev := Ref(a)))
  {
    assert refs != [] ==> refs[0] != a;
  }

  /** Linking a record that is not on a doubly linked list at its head gives the list with it in front. */
  lemma LinkAtHeadPrepends(h: Heap, first: Ptr, refs: seq<nat>, a: nat, s: Session)
    requires IsChain(h, first, refs) && BackLinked(h, refs)
    requires a !in refs
    ensures var r := LinkAtHead(h, first, a, s);
            IsChain(r.0, r.1, [a] + refs) && BackLinked(r.0, [a] + refs)
  {
    LinkAtHeadEffect(h, first, refs, a, s);
    var h' := LinkAtHead(h, first, a, s).0;
    var r := [a] + refs;
    forall i | 1 <= i < |r|
      ensures r[i] in h' && h'[r[i]].next == PtrAt(r, i + 1) && h'[r[i]].prev == PtrAt(r, i - 1)
    {
      LinkAtHeadAt(h, first, refs, a, s, i - 1);
      assert r[i] == refs[i - 1];
    }
    DistinctCons(a, refs);
  }

  /** A fresh address in front of a list without repeats gives a list without repeats. */
  lemma DistinctCons(a: nat, refs: seq<nat>)
    requires Distinct(refs) && a !in refs
    ensures Distinct([a] + refs)
  {
    var r := [a] + refs;
    forall i, j | 0 <= i < j < |r| ensures r[i] != r[j] {
      assert r[j] == refs[j - 1];
      if i > 0 {
        assert r[i] == refs[i - 1];
      }
    }
  }

  /** The links of the i-th record of the list after linking a in front of it. */
  lemma LinkAtHeadAt(h: Heap, first: Ptr, refs: seq<nat>, a: nat, s: Session, i: nat)
    requires IsChain(h, first, refs) && BackLinked(h, refs)
    requires a !in refs && i < |refs|
    ensures var h' := LinkAtHead(h, first, a, s).0;
            var r := [a] + refs;
            refs[i] in h' && h'[refs[i]].next == PtrAt(r, i + 2) && h'[refs[i]].prev == PtrAt(r, i)
  {
    LinkAtHeadEffect(h, first, refs, a, s);
    var r := [a] + refs;
    assert refs[i] != a;
    assert h[refs[i]].next == PtrAt(refs, i + 1) && h[refs[i]].prev == PtrAt(refs, i - 1);
    assert PtrAt(r, i + 2) == PtrAt(refs, i + 1);
    if i == 0 {
      assert PtrAt(r, i) == Ref(a);
    } else {
      assert PtrAt(r, i) == PtrAt(refs, i - 1);
      assert refs[i] != first.addr by { assert refs[0] != refs[i]; }
    }
  }

  /** What the unlinking statements do to the records of a doubly linked list. */
  lemma UnlinkEffect(h: Heap, first: Ptr, refs: seq<nat>, k: nat)
    requires IsChain(h, first, refs) && BackLinked(h, refs)
    requires k < |refs|
    ensures var r := Unlink(h, first, refs[k]);
            var p := PtrAt(refs, k - 1);
            var n := PtrAt(refs, k + 1);
            && (forall x :: x in h && Ref(x) != p && Ref(x) != n ==> r.0[x] == h[x])
            && (n.Ref? ==> r.0[n.addr] == h[n.addr].(prev := p))
            && (p.Ref? ==> r.0[p.addr] == h[p.addr].(next := n))
            && r.1 == (if k == 0 then n else first)
  {
    var a := refs[k];
    var p := PtrAt(refs, k - 1);
    var n := PtrAt(refs, k + 1);
    assert h[a].next == n && h[a].prev == p;
    assert n.Ref? ==> n.addr != a && (p.Ref? ==> p.addr != n.addr);
    assert p.Ref? ==> p.addr != a;
    assert k > 0 ==> first != Ref(a) by {
      if k > 0 {
        assert refs[0] != a;
      }
    }
    // the two assignments of Unlink, one neighbour at a time
    var h1 := if n.Ref? then h[n.addr := h[n.addr].(prev := p)] else h;
    assert h1[a] == h[a];
    var h2 := if p.Ref? then h1[p.addr := h1[p.addr].(next := n)] else h1;
    assert Unlink(h, first, a).0 == h2;
  }

  /**
   * On a doubly linked list, the unlinking statements of removeActive take
   * the record out of the list and touch only its two neighbours.
   */
  lemma UnlinkRemoves(h: Heap, first: Ptr, refs: seq<nat>, k: nat)
    requires IsChain(h, first, refs) && BackLinked(h, refs)
    requires k < |refs|
    ensures var r := Unlink(h, first, refs[k]);
            var rest := refs[..k] + refs[k + 1..];
            IsChain(r.0, r.1, rest) && BackLinked(r.0, rest)
    ensures var r := Unlink(h, first, refs[k]);
            forall x :: x in h && Ref(x) != PtrAt(refs, k - 1) && Ref(x) != PtrAt(refs, k + 1) ==> r.0[x] == h[x]
  {
    var h' := Unlink(h, first, refs[k]).0;
    var rest := refs[..k] + refs[k + 1..];
    UnlinkEffect(h, first, refs, k);
    forall i | 0 <= i < |rest|
      ensures rest[i] in h' && h'[rest[i]].next == PtrAt(rest, i + 1) && h'[rest[i]].prev == PtrAt(rest, i - 1)
    {
      UnlinkAt(h, first, refs, k, i);
    }
    DistinctWithout(refs, k);
  }

  /** The links of the i-th record of the list after unlinking the k-th. */
  lemma UnlinkAt(h: Heap, first: Ptr, refs: seq<nat>, k: nat, i: nat)
    requires IsChain(h, first, refs) && BackLinked(h, refs)
    requires k < |refs| && i < |refs| - 1
    ensures var h' := Unlink(h, first, refs[k]).0;
            var rest := refs[..k] + refs[k + 1..];
            rest[i] in h' && h'[rest[i]].next == PtrAt(rest, i + 1) && h'[rest[i]].prev == PtrAt(rest, i - 1)
  {
    if i < k {
      UnlinkAtBefore(h, first, refs, k, i);
    } else {
      UnlinkAtAfter(h, first, refs, k, i);
    }
  }

  /** UnlinkAt for a record before the unlinked one. */
  lemma UnlinkAtBefore(h: Heap, first: Ptr, refs: seq<nat>, k: nat, i: nat)
    requires IsChain(h, first, refs) && BackLinked(h, refs)
    requires k < |refs| && i < k
    ensures var h' := Unlink(h, first, refs[k]).0;
            var rest := refs[..k] + refs[k + 1..];
            rest[i] in h' && h'[rest[i]].next == PtrAt(rest, i + 1) && h'[rest[i]].prev == PtrAt(rest, i - 1)
  {
    var rest := refs[..k] + refs[k + 1..];
    assert rest[i] == refs[i];
    UnlinkEffect(h, first, refs, k);
    assert h[refs[i]].next == PtrAt(refs, i + 1) && h[refs[i]].prev == PtrAt(refs, i - 1);
    assert PtrAt(rest, i - 1) == PtrAt(refs, i - 1);
    if i < k - 1 {
      assert PtrAt(rest, i + 1) == PtrAt(refs, i + 1);
      assert k + 1 < |refs| ==> refs[i] != refs[k + 1];
      assert refs[i] != refs[k - 1];
    } else {
      assert PtrAt(rest, i + 1) == PtrAt(refs, k + 1);
    }
  }

  /** UnlinkAt for a record after the unlinked one. */
  lemma UnlinkAtAfter(h: Heap, first: Ptr, refs: seq<nat>, k: nat, i: nat)
    requires IsChain(h, first, refs) && BackLinked(h, refs)
    requires k <= i < |refs| - 1
    ensures var h' := Unlink(h, first, refs[k]).0;
            var rest := refs[..k] + refs[k + 1..];
            rest[i] in h' && h'[rest[i]].next == PtrAt(rest, i + 1) && h'[rest[i]].prev == PtrAt(rest, i - 1)
  {
    var rest := refs[..k] + refs[k + 1..];
    assert rest[i] == refs[i + 1];
    UnlinkEffect(h, first, refs, k);
    assert h[refs[i + 1]].next == PtrAt(refs, i + 2) && h[refs[i + 1]].prev == PtrAt(refs, i);
    assert PtrAt(rest, i + 1) == PtrAt(refs, i + 2);
    if i > k {
      assert PtrAt(rest, i - 1) == PtrAt(refs, i);
      assert refs[i + 1] != refs[k + 1];
      assert k > 0 ==> refs[i + 1] != refs[k - 1];
    } else {
      assert PtrAt(rest, i - 1) == PtrAt(refs, k - 1);
    }
  }

  /** A walk that stops at the first match, or at the end, stops at FindIndex. */
  lemma {:induction false} FindIndexIsFirst(h: Heap, refs: seq<nat>, clientIP: uint32, clientPort: uint16, i: nat)
    requires forall j :: 0 <= j < |refs| ==> refs[j] in h
    requires i <= |refs|
    requires forall j :: 0 <= j < i ==> !Matches(h[refs[j]], clientIP, clientPort)
    requires i < |refs| ==> Matches(h[refs[i]], clientIP, clientPort)
    ensures FindIndex(h, refs, clientIP, clientPort) == i
  {
    if refs != [] && i > 0 {
      assert !Matches(h[refs[0]], clientIP, clientPort);
      FindIndexIsFirst(h, refs[1..], clientIP, clientPort, i - 1);
    }
  }

  lemma DistinctWithout(refs: seq<nat>, k: nat)
    requires Distinct(refs) && k < |refs|
    ensures Distinct(refs[..k] + refs[k + 1..])
    ensures forall x :: x in refs[..k] + refs[k + 1..] <==> x in refs && x != refs[k]
  {
    var rest := refs[..k] + refs[k + 1..];
    assert forall i :: 0 <= i < k ==> rest[i] == refs[i];
    assert forall i :: k <= i < |rest| ==> rest[i] == refs[i + 1];
    forall x | x in refs && x != refs[k] ensures x in rest {
      var i :| 0 <= i < |refs| && refs[i] == x;
      if i < k {
        assert rest[i] == x;
      } else {
        assert rest[i - 1] == x;
      }
    }
  }

  /**
   * getActive for A and then for B builds B -> A with A's prev still Null, so
   * removeActive of A leaves it on the active list: B's next still points at it.
   */
  lemma RemoveNonHeadAsWrittenStaysLinked()
    ensures var s := NewSession();
            var (h1, f1) := LinkAtHeadAsWritten(map[], Null, 0, s.(clientIP := 1));
            var (h2, f2) := LinkAtHeadAsWritten(h1, f1, 1, s.(clientIP := 2));
            var (h3, f3) := Unlink(h2, f2, 0);
            f3 == Ref(1) && h3[1].next == Ref(0)
  {
  }

  /** The statements of removeActive that append the record at a to the archive. */
  function AppendArchive(h: Heap, firstSession: Ptr, lastSession: Ptr, a: nat): (r: (Heap, Ptr, Ptr))
    requires a in h
    requires firstSession.Ref? ==> lastSession.Ref? && lastSession.addr in h
    ensures r.0.Keys == h.Keys
  {
    var h1 := h[a := h[a].(next := Null)];
    if firstSession == Null then (h1[a := h1[a].(prev := Null)], Ref(a), Ref(a))
    else (h1[lastSession.addr := h1[lastSession.addr].(next := Ref(a))], firstSession, Ref(a))
  }

  /** Appending a record that is not on the archive extends it by that record at the tail. */
  lemma AppendArchiveExtends(h: Heap, firstSession: Ptr, lastSession: Ptr, refs: seq<nat>, a: nat)
    requires IsChain(h, firstSession, refs)
    requires refs != [] ==> lastSession == Ref(refs[|refs| - 1])
    requires a in h && a !in refs
    ensures var r := AppendArchive(h, firstSession, lastSession, a);
            && IsChain(r.0, r.1, refs + [a]) && r.2 == Ref(a)
            && r.0[a].isActive == h[a].isActive
            && (forall x :: x in h && x != a && x !in refs ==> r.0[x] == h[x])
            && (forall x :: x in refs ==> r.0[x].isActive == h[x].isActive)
  {
    var h' := AppendArchive(h, firstSession, lastSession, a).0;
    var r := refs + [a];
    forall i | 0 <= i < |r|
      ensures r[i] in h' && h'[r[i]].next == PtrAt(r, i + 1)
    {
      if i < |refs| {
        assert r[i] == refs[i] && refs[i] != a;
        if i < |refs| - 1 {
          assert refs[i] != refs[|refs| - 1];
        }
      }
    }
    assert Distinct(r);
  }

  /** Appending to the archive changes only the links of the records, never their contents. */
  lemma AppendArchiveKeepsContents(h: Heap, firstSession: Ptr, lastSession: Ptr, a: nat)
    requires a in h
    requires firstSession.Ref? ==> lastSession.Ref? && lastSession.addr in h
    ensures var r := AppendArchive(h, firstSession, lastSession, a);
            forall x :: x in h ==> r.0[x] == h[x].(prev := r.0[x].prev, next := r.0[x].next)
  {
  }

  // ---------------------------------------------------------------------
  // What the list operations leave alone
  // ---------------------------------------------------------------------

  /**
   * h1 holds every record of h0 under the same address, with the same key
   * and the same contents apart from its links; only the record at flagged
   * may also have a new active flag.
   */
  ghost predicate ContentsKept(h0: Heap, h1: Heap, flagged: Ptr)
  {
    forall x :: x in h0 ==>
      && x in h1
      && h1[x].clientIP == h0[x].clientIP && h1[x].clientPort == h0[x].clientPort
      && h1[x].(prev := h0[x].prev, next := h0[x].next, isActive := h0[x].isActive) == h0[x]
      && (Ref(x) != flagged ==> h1[x].isActive == h0[x].isActive)
  }

  /** Marking the record at a inactive and unlinking it keeps every record's key and contents. */
  lemma MarkUnlinkKeepsContents(h: Heap, first: Ptr, a: nat)
    requires a in h
    requires h[a].next.Ref? ==> h[a].next.addr in h
    requires h[a].prev.Ref? ==> h[a].prev.addr in h
    ensures var r := Unlink(h[a := h[a].(isActive := false)], first, a);
            r.0.Keys == h.Keys && ContentsKept(h, r.0, Ref(a))
  {
    var marked := h[a := h[a].(isActive := false)];
    UnlinkKeepsContents(marked, first, a);
  }

  /** Linking a new record at the head keeps the key, flag and contents of every old record. */
  lemma LinkKeepsContents(h0: Heap, first: Ptr, a: nat, s: Session)
    requires a !in h0 && (first.Ref? ==> first.addr in h0)
    ensures ContentsKept(h0, LinkAtHead(h0[a := NewSession()], first, a, s).0, Null)
  {
  }

  /**
   * When every old record keeps its key and a new record with the key
   * heads the active list, every other key finds the same active record,
   * and every key the same archived one.
   */
  lemma PrependKeepsLookups(h0: Heap, h: Heap, a: nat, active: seq<nat>, archived: seq<nat>)
    requires ContentsKept(h0, h, Null) && a in h
    requires forall i :: 0 <= i < |active| ==> active[i] in h0
    requires forall i :: 0 <= i < |archived| ==> archived[i] in h0
    ensures forall i :: 0 <= i < |[a] + active| ==> ([a] + active)[i] in h
    ensures forall i :: 0 <= i < |archived| ==> archived[i] in h
    ensures forall ip: uint32, port: uint16 :: !Matches(h[a], ip, port) ==>
              SameLookup(h0, active, h, [a] + active, ip, port)
    ensures forall ip: uint32, port: uint16 :: SameLookup(h0, archived, h, archived, ip, port)
  {
    FindIndexKept(h0, h, Null, archived, 0, 0);
    assert forall i :: 0 <= i < |[a] + active| ==> ([a] + active)[i] == if i == 0 then a else active[i - 1];
    forall ip: uint32, port: uint16
      ensures !Matches(h[a], ip, port) ==> SameLookup(h0, active, h, [a] + active, ip, port)
      ensures SameLookup(h0, archived, h, archived, ip, port)
    {
      FindIndexKept(h0, h, Null, active, ip, port);
      FindIndexKept(h0, h, Null, archived, ip, port);
      if !Matches(h[a], ip, port) {
        FindPastHead(h, a, active, ip, port);
      }
    }
  }

  /** A step that keeps every flag, after one that may change the flag at flagged. */
  lemma ContentsKeptTrans(h0: Heap, h1: Heap, h2: Heap, flagged: Ptr)
    requires ContentsKept(h0, h1, flagged) && ContentsKept(h1, h2, Null)
    ensures ContentsKept(h0, h2, flagged)
  {
  }

  /** Over records whose keys are kept, the first record with a key is at the same index. */
  lemma {:induction false} FindIndexKept(h0: Heap, h1: Heap, flagged: Ptr, refs: seq<nat>,
                                         clientIP: uint32, clientPort: uint16)
    requires forall i :: 0 <= i < |refs| ==> refs[i] in h0
    requires ContentsKept(h0, h1, flagged)
    ensures forall i :: 0 <= i < |refs| ==> refs[i] in h1
    ensures FindIndex(h1, refs, clientIP, clientPort) == FindIndex(h0, refs, clientIP, clientPort)
  {
    if refs != [] {
      FindIndexKept(h0, h1, flagged, refs[1..], clientIP, clientPort);
    }
  }

  /** Putting a record without the key in front does not change which record the key finds. */
  lemma FindPastHead(h: Heap, b: nat, refs: seq<nat>, clientIP: uint32, clientPort: uint16)
    requires b in h && forall i :: 0 <= i < |refs| ==> refs[i] in h
    requires !Matches(h[b], clientIP, clientPort)
    ensures forall i :: 0 <= i < |[b] + refs| ==> ([b] + refs)[i] in h
    ensures PtrAt([b] + refs, FindIndex(h, [b] + refs, clientIP, clientPort))
            == PtrAt(refs, FindIndex(h, refs, clientIP, clientPort))
  {
    assert ([b] + refs)[1..] == refs;
  }

  /** Taking out a record without the key does not change which record the key finds. */
  lemma {:induction false} FindPastRemoved(h: Heap, refs: seq<nat>, k: nat, rest: seq<nat>,
                                           clientIP: uint32, clientPort: uint16)
    requires forall i :: 0 <= i < |refs| ==> refs[i] in h
    requires k < |refs| && !Matches(h[refs[k]], clientIP, clientPort)
    requires |rest| + 1 == |refs|
    requires forall i :: 0 <= i < k ==> rest[i] == refs[i]
    requires forall i :: k <= i < |rest| ==> rest[i] == refs[i + 1]
    ensures forall i :: 0 <= i < |rest| ==> rest[i] in h
    ensures PtrAt(rest, FindIndex(h, rest, clientIP, clientPort)) == PtrAt(refs, FindIndex(h, refs, clientIP, clientPort))
  {
    if k == 0 {
      assert rest == refs[1..];
    } else if !Matches(h[refs[0]], clientIP, clientPort) {
      var tail := refs[1..];
      assert rest[0] == refs[0];
      FindPastRemoved(h, tail, k - 1, rest[1..], clientIP, clientPort);
      var j := FindIndex(h, rest[1..], clientIP, clientPort);
      var j' := FindIndex(h, tail, clientIP, clientPort);
      assert PtrAt(rest, 1 + j) == PtrAt(rest[1..], j);
      assert PtrAt(refs, 1 + j') == PtrAt(tail, j');
    } else {
      assert rest[0] == refs[0];
    }
  }

  /** Appending a record without the key does not change which record the key finds. */
  lemma FindPastAppended(h: Heap, refs: seq<nat>, a: nat, clientIP: uint32, clientPort: uint16)
    requires a in h && forall i :: 0 <= i < |refs| ==> refs[i] in h
    requires !Matches(h[a], clientIP, clientPort)
    ensures forall i :: 0 <= i < |refs + [a]| ==> (refs + [a])[i] in h
    ensures PtrAt(refs + [a], FindIndex(h, refs + [a], clientIP, clientPort))
            == PtrAt(refs, FindIndex(h, refs, clientIP, clientPort))
  {
    var j := FindIndex(h, refs, clientIP, clientPort);
    var r := refs + [a];
    assert forall i :: 0 <= i < |refs| ==> r[i] == refs[i];
    FindIndexIsFirst(h, r, clientIP, clientPort, if j < |refs| then j else |r|);
  }

  /** When no record of refs has the key, the key finds a record with it appended after them. */
  lemma FindAppended(h: Heap, refs: seq<nat>, a: nat, clientIP: uint32, clientPort: uint16)
    requires a in h && forall i :: 0 <= i < |refs| ==> refs[i] in h
    requires Matches(h[a], clientIP, clientPort)
    requires FindIndex(h, refs, clientIP, clientPort) == |refs|
    ensures forall i :: 0 <= i < |refs + [a]| ==> (refs + [a])[i] in h
    ensures PtrAt(refs + [a], FindIndex(h, refs + [a], clientIP, clientPort)) == Ref(a)
  {
    FindIndexIsFirst(h, refs + [a], clientIP, clientPort, |refs|);
  }

  /**
   * Moving the first record with a key from the active list to the tail of
   * the archive, keeping every record's key: every other key finds the
   * same records on both lists, and the key itself finds the moved record
   * in the archive when no archived record had it.
   */
  lemma MoveKeepsLookups(h0: Heap, h: Heap, active: seq<nat>, archived: seq<nat>, k: nat,
                         clientIP: uint32, clientPort: uint16)
    requires forall i :: 0 <= i < |active| ==> active[i] in h0
    requires forall i :: 0 <= i < |archived| ==> archived[i] in h0
    requires k == FindIndex(h0, active, clientIP, clientPort) < |active|
    requires ContentsKept(h0, h, Ref(active[k]))
    ensures var rest := active[..k] + active[k + 1..];
            && (forall i :: 0 <= i < |rest| ==> rest[i] in h)
            && (forall i :: 0 <= i < |archived + [active[k]]| ==> (archived + [active[k]])[i] in h)
            && (forall ip: uint32, port: uint16 :: !(ip == clientIP && port == clientPort) ==>
                  SameLookup(h0, active, h, rest, ip, port)
                  && SameLookup(h0, archived, h, archived + [active[k]], ip, port))
            && (FindIndex(h0, archived, clientIP, clientPort) == |archived| ==>
                  PtrAt(archived + [active[k]], FindIndex(h, archived + [active[k]], clientIP, clientPort))
                  == Ref(active[k]))
  {
    var a, rest := active[k], active[..k] + active[k + 1..];
    assert forall i :: 0 <= i < |rest| ==> rest[i] == if i < k then active[i] else active[i + 1];
    FindIndexKept(h0, h, Ref(a), archived, clientIP, clientPort);
    if FindIndex(h0, archived, clientIP, clientPort) == |archived| {
      FindAppended(h, archived, a, clientIP, clientPort);
    }
    forall ip: uint32, port: uint16 | !(ip == clientIP && port == clientPort)
      ensures SameLookup(h0, active, h, rest, ip, port)
      ensures SameLookup(h0, archived, h, archived + [a], ip, port)
    {
      RemovedKeepsLookup(h0, h, Ref(a), active, k, rest, ip, port);
      AppendedKeepsLookup(h0, h, Ref(a), archived, a, ip, port);
    }
  }

  /** One key's lookup after a record without that key is taken out and the others keep their keys. */
  lemma RemovedKeepsLookup(h0: Heap, h: Heap, flagged: Ptr, refs: seq<nat>, k: nat, rest: seq<nat>,
                           clientIP: uint32, clientPort: uint16)
    requires forall i :: 0 <= i < |refs| ==> refs[i] in h0
    requires ContentsKept(h0, h, flagged)
    requires k < |refs| && !Matches(h0[refs[k]], clientIP, clientPort)
    requires |rest| + 1 == |refs|
    requires forall i :: 0 <= i < k ==> rest[i] == refs[i]
    requires forall i :: k <= i < |rest| ==> rest[i] == refs[i + 1]
    ensures forall i :: 0 <= i < |rest| ==> rest[i] in h
    ensures PtrAt(rest, FindIndex(h, rest, clientIP, clientPort)) == PtrAt(refs, FindIndex(h0, refs, clientIP, clientPort))
  {
    FindIndexKept(h0, h, flagged, refs, clientIP, clientPort);
    FindPastRemoved(h, refs, k, rest, clientIP, clientPort);
  }

  /** One key's lookup after a record without that key is appended and the others keep their keys. */
  lemma AppendedKeepsLookup(h0: Heap, h: Heap, flagged: Ptr, refs: seq<nat>, a: nat,
                            clientIP: uint32, clientPort: uint16)
    requires a in h0 && forall i :: 0 <= i < |refs| ==> refs[i] in h0
    requires ContentsKept(h0, h, flagged)
    requires !Matches(h0[a], clientIP, clientPort)
    ensures forall i :: 0 <= i < |refs + [a]| ==> (refs + [a])[i] in h
    ensures PtrAt(refs + [a], FindIndex(h, refs + [a], clientIP, clientPort))
            == PtrAt(refs, FindIndex(h0, refs, clientIP, clientPort))
  {
    FindIndexKept(h0, h, flagged, refs, clientIP, clientPort);
    FindPastAppended(h, refs, a, clientIP, clientPort);
  }

  /** The shape of the manager's lists in the arena. */
  ghost predicate ListsValid(h: Heap, firstActive: Ptr, firstSession: Ptr, lastSession: Ptr, nextAddr: nat,
                             active: seq<nat>, archived: seq<nat>)
  {
    && IsChain(h, firstActive, active) && BackLinked(h, active)
    && IsChain(h, firstSession, archived)
    && (archived != [] ==> lastSession == Ref(archived[|archived| - 1]))
    && (forall i :: 0 <= i < |active| ==> h[active[i]].isActive)
    && (forall i :: 0 <= i < |archived| ==> !h[archived[i]].isActive)
    && (forall x :: x in h ==> x < nextAddr)
  }

  /** Linking a new active record at the head keeps the lists well formed. */
  lemma LinkKeepsLists(h: Heap, firstActive: Ptr, firstSession: Ptr, lastSession: Ptr, nextAddr: nat,
                       active: seq<nat>, archived: seq<nat>, a: nat, rec: Session)
    requires ListsValid(h, firstActive, firstSession, lastSession, nextAddr, active, archived)
    requires a in h && a !in active && a !in archived && rec.isActive
    ensures var r := LinkAtHead(h, firstActive, a, rec);
            ListsValid(r.0, r.1, firstSession, lastSession, nextAddr, [a] + active, archived)
  {
    LinkAtHeadEffect(h, firstActive, active, a, rec);
    LinkAtHeadPrepends(h, firstActive, active, a, rec);
    var h' := LinkAtHead(h, firstActive, a, rec).0;
    forall i | 0 <= i < |archived| ensures h'[archived[i]] == h[archived[i]] {
      assert archived[i] != a;
      assert firstActive.Ref? ==> archived[i] != firstActive.addr by {
        if firstActive.Ref? {
          assert h[active[0]].isActive;
        }
      }
    }
    var r := [a] + active;
    forall i | 0 <= i < |r| ensures h'[r[i]].isActive {
      if i > 0 {
        assert r[i] == active[i - 1];
      }
    }
  }

  /**
   * Marking the k-th active record inactive and unlinking it leaves the lists
   * well formed without it; the record is then on neither list.
   */
  lemma MarkUnlinkKeepsLists(h: Heap, firstActive: Ptr, firstSession: Ptr, lastSession: Ptr, nextAddr: nat,
                             active: seq<nat>, archived: seq<nat>, k: nat)
    requires ListsValid(h, firstActive, firstSession, lastSession, nextAddr, active, archived)
    requires k < |active|
    ensures var a := active[k];
            var h1 := h[a := h[a].(isActive := false)];
            && a in h1
            && (h1[a].next.Ref? ==> h1[a].next.addr in h1)
            && (h1[a].prev.Ref? ==> h1[a].prev.addr in h1)
    ensures var a := active[k];
            var u := Unlink(h[a := h[a].(isActive := false)], firstActive, a);
            var rest := active[..k] + active[k + 1..];
            && ListsValid(u.0, u.1, firstSession, lastSession, nextAddr, rest, archived)
            && a in u.0 && !u.0[a].isActive && a !in rest && a !in archived
  {
    var a := active[k];
    var h1 := h[a := h[a].(isActive := false)];
    MarkKeepsChains(h, firstActive, firstSession, lastSession, nextAddr, active, archived, k);
    UnlinkRemoves(h1, firstActive, active, k);
    DistinctWithout(active, k);
    UnlinkSparesArchive(h1, firstActive, active, k, firstSession, archived);
    UnlinkKeepsActiveFlags(h1, firstActive, active, k);
  }

  /** Clearing the k-th active record's flag keeps both chains and every other record's flag. */
  lemma MarkKeepsChains(h: Heap, firstActive: Ptr, firstSession: Ptr, lastSession: Ptr, nextAddr: nat,
                        active: seq<nat>, archived: seq<nat>, k: nat)
    requires ListsValid(h, firstActive, firstSession, lastSession, nextAddr, active, archived)
    requires k < |active|
    ensures var a := active[k];
            var h1 := h[a := h[a].(isActive := false)];
            && h1.Keys == h.Keys && a !in archived
            && IsChain(h1, firstActive, active) && BackLinked(h1, active)
            && IsChain(h1, firstSession, archived)
            && (forall i :: 0 <= i < |archived| ==> !h1[archived[i]].isActive)
            && (forall i :: 0 <= i < |active| && i != k ==> h1[active[i]].isActive)
  {
    var a := active[k];
    assert a !in archived by {
      assert h[a].isActive;
    }
  }

  /** Unlinking a record leaves a list of records with the other flag, not containing it, as it was. */
  lemma UnlinkSparesArchive(h: Heap, firstActive: Ptr, active: seq<nat>, k: nat,
                            firstSession: Ptr, archived: seq<nat>)
    requires IsChain(h, firstActive, active) && BackLinked(h, active) && k < |active|
    requires forall i :: 0 <= i < |active| && i != k ==> h[active[i]].isActive
    requires IsChain(h, firstSession, archived) && active[k] !in archived
    requires forall i :: 0 <= i < |archived| ==> !h[archived[i]].isActive
    ensures var u := Unlink(h, firstActive, active[k]);
            && IsChain(u.0, firstSession, archived)
            && (forall i :: 0 <= i < |archived| ==> !u.0[archived[i]].isActive)
  {
    UnlinkEffect(h, firstActive, active, k);
    var u := Unlink(h, firstActive, active[k]);
    forall i | 0 <= i < |archived| ensures u.0[archived[i]] == h[archived[i]] {
      assert k > 0 ==> h[active[k - 1]].isActive;
      assert k + 1 < |active| ==> h[active[k + 1]].isActive;
    }
  }

  /** Unlinking the k-th record of a list keeps every record's active flag. */
  lemma UnlinkKeepsActiveFlags(h: Heap, first: Ptr, refs: seq<nat>, k: nat)
    requires IsChain(h, first, refs) && BackLinked(h, refs)
    requires k < |refs|
    requires forall i :: 0 <= i < |refs| && i != k ==> h[refs[i]].isActive
    ensures var u := Unlink(h, first, refs[k]);
            var rest := refs[..k] + refs[k + 1..];
            && (forall i :: 0 <= i < |rest| ==> u.0[rest[i]].isActive)
            && u.0[refs[k]].isActive == h[refs[k]].isActive
  {
    var u := Unlink(h, first, refs[k]);
    UnlinkKeepsContents(h, first, refs[k]);
    var rest := refs[..k] + refs[k + 1..];
    forall i | 0 <= i < |rest| ensures u.0[rest[i]].isActive {
      if i < k {
        assert rest[i] == refs[i];
      } else {
        assert rest[i] == refs[i + 1];
      }
    }
  }

  /** Appending an inactive record that is on neither list to the archive keeps the lists well formed. */
  lemma ArchiveKeepsLists(h: Heap, firstActive: Ptr, firstSession: Ptr, lastSession: Ptr, nextAddr: nat,
                          active: seq<nat>, archived: seq<nat>, a: nat)
    requires ListsValid(h, firstActive, firstSession, lastSession, nextAddr, active, archived)
    requires a in h && !h[a].isActive && a !in active && a !in archived
    ensures firstSession.Ref? ==> lastSession.Ref? && lastSession.addr in h
    ensures var r := AppendArchive(h, firstSession, lastSession, a);
            ListsValid(r.0, firstActive, r.1, r.2, nextAddr, active, archived + [a])
            && !r.0[a].isActive && r.2 == Ref(a)
  {
    AppendArchiveExtends(h, firstSession, lastSession, archived, a);
    var r := AppendArchive(h, firstSession, lastSession, a);
    forall i | 0 <= i < |active| ensures r.0[active[i]] == h[active[i]] {
      assert active[i] != a;
      assert h[active[i]].isActive;
    }
    var ar := archived + [a];
    forall i | 0 <= i < |ar| ensures !r.0[ar[i]].isActive {
      if i < |archived| {
        assert ar[i] == archived[i];
      }
    }
  }

  /** Freeing the head of the archive leaves the lists well formed, the archive one shorter. */
  lemma FreeHeadKeepsLists(h: Heap, firstActive: Ptr, firstSession: Ptr, lastSession: Ptr, nextAddr: nat,
                           active: seq<nat>, archived: seq<nat>)
    requires ListsValid(h, firstActive, firstSession, lastSession, nextAddr, active, archived)
    requires archived != []
    ensures firstSession == Ref(archived[0]) && archived[0] in h
    ensures ListsValid(h - {archived[0]}, firstActive, h[archived[0]].next, lastSession, nextAddr, active, archived[1..])
  {
    var a := archived[0];
    var h' := h - {a};
    var rest := archived[1..];
    assert forall i :: 0 <= i < |rest| ==> rest[i] == archived[i + 1];
    forall i | 0 <= i < |rest| ensures rest[i] in h' && h'[rest[i]].next == PtrAt(rest, i + 1) {
      assert archived[i + 1] != archived[0];
    }
    forall i | 0 <= i < |active| ensures active[i] in h' && h'[active[i]] == h[active[i]] {
      assert h[active[i]].isActive;
    }
  }

  /** Moving the head of one list to the end of another keeps their concatenation. */
  lemma MoveHead(done: seq<nat>, todo: seq<nat>)
    requires todo != []
    ensures (done + [todo[0]]) + todo[1..] == done + todo
  {
    assert [todo[0]] + todo[1..] == todo;
  }

  // ---------------------------------------------------------------------
  // The manager
  // ---------------------------------------------------------------------

  /**
   * The session manager's globals: the arena, the heads of the two lists,
   * the tail of the archive and the three counters. getActive here links a
   * new session with the old head's prev set (LinkAtHead), which is what
   * removeActive's unlinking relies on.
   */
  class SessionManager {
    var heap: Heap
    var nextAddr: nat
    var firstActive: Ptr
    var firstSession: Ptr
    var lastSession: Ptr
    var sessionCount: uint32
    var activeSessionCount: uint32
    var archivedSessionCount: uint32
    ghost var active: seq<nat>
    ghost var archived: seq<nat>

    ghost predicate Valid()
      reads this
    {
      && ListsValid(heap, firstActive, firstSession, lastSession, nextAddr, active, archived)
      && activeSessionCount as int == |active|
      && sessionCount as int == |active| + |archived| <= MAX_SESSIONS
    }

    /** sessionCount is the sum of the two list counters. */
    predicate CountsAgree()
      reads this
    {
      sessionCount as int == activeSessionCount as int + archivedSessionCount as int
    }

    /** The globals at program start: empty lists, zero counters. */
    constructor ()
      ensures Valid() && CountsAgree()
      ensures active == [] && archived == [] && heap == map[]
    {
      heap := map[];
      nextAddr := 0;
      firstActive := Null;
      firstSession := Null;
      lastSession := Null;
      sessionCount := 0;
      activeSessionCount := 0;
      archivedSessionCount := 0;
      active := [];
      archived := [];
    }

    /** getNumberActiveSessions */
    method GetNumberActiveSessions() returns (n: int)
      requires Valid()
      ensures n == |active|
    {
      n := activeSessionCount as int;
    }

    /** getNumberSessions */
    method GetNumberSessions() returns (n: int)
      requires Valid()
      ensures n == |active| + |archived|
    {
      n := sessionCount as int;
    }

    /** The loop of findActive and findSession: the first record from head on with the key. */
    method Walk(head: Ptr, ghost refs: seq<nat>, clientIP: uint32, clientPort: uint16) returns (s: Ptr)
      requires IsChain(heap, head, refs)
      ensures s == PtrAt(refs, FindIndex(heap, refs, clientIP, clientPort))
    {
      s := head;
      ghost var i := 0;
      while s != Null
        invariant 0 <= i <= |refs| && s == PtrAt(refs, i)
        invariant forall j :: 0 <= j < i ==> !Matches(heap[refs[j]], clientIP, clientPort)
        decreases |refs| - i
      {
        if heap[s.addr].clientIP == clientIP && heap[s.addr].clientPort == clientPort {
          break;
        }
        s := heap[s.addr].next;
        i := i + 1;
      }
      FindIndexIsFirst(heap, refs, clientIP, clientPort, i);
    }

    /** findActive: the first active session with the key, or Null. */
    method FindActive(clientIP: uint32, clientPort: uint16) returns (s: Ptr)
      requires Valid()
      ensures s == PtrAt(active, FindIndex(heap, active, clientIP, clientPort))
      ensures s == Null <==> forall i :: 0 <= i < |active| ==> !Matches(heap[active[i]], clientIP, clientPort)
    {
      s := Walk(firstActive, active, clientIP, clientPort);
    }

    /** findSession: the first archived session with the key, or Null. */
    method FindSession(clientIP: uint32, clientPort: uint16) returns (s: Ptr)
      requires Valid()
      ensures s == PtrAt(archived, FindIndex(heap, archived, clientIP, clientPort))
      ensures s == Null <==> forall i :: 0 <= i < |archived| ==> !Matches(heap[archived[i]], clientIP, clientPort)
    {
      s := Walk(firstSession, archived, clientIP, clientPort);
    }

    /**
     * createSession(sPtr): ERROR when the caller's pointer is NULL or the
     * manager is full; otherwise a new record, on neither list, returned
     * through the caller's pointer (s).
     */
    method CreateSession(callerPtrValid: bool) returns (rc: int, s: Ptr)
      requires Valid()
      modifies this
      ensures Valid()
      ensures rc == ERROR <==> !callerPtrValid || old(sessionCount) as int >= MAX_SESSIONS
      ensures rc == NOERROR || rc == ERROR
      ensures rc == ERROR ==> s == Null && unchanged(this)
      ensures rc == NOERROR ==> s.Ref? && s.addr !in old(heap) && heap == old(heap)[s.addr := NewSession()]
      ensures active == old(active) && archived == old(archived)
      ensures firstActive == old(firstActive) && firstSession == old(firstSession) && lastSession == old(lastSession)
      ensures sessionCount == old(sessionCount) && activeSessionCount == old(activeSessionCount)
      ensures archivedSessionCount == old(archivedSessionCount)
    {
      if !callerPtrValid {
        rc := ERROR;
        s := Null;
      } else if sessionCount as int < MAX_SESSIONS {
        var a := nextAddr;
        nextAddr := nextAddr + 1;
        heap := heap[a := NewSession()];
        s := Ref(a);
        rc := NOERROR;
      } else {
        rc := ERROR;
        s := Null;
      }
    }

    /**
     * getActive: the active session with the key; when there is none and
     * there is room, a new one with the key at the head of the active list.
     */
    method GetActive(clientIP: uint32, clientPort: uint16) returns (s: Ptr)
      requires Valid()
      modifies this
      ensures Valid()
      ensures old(FindIndex(heap, active, clientIP, clientPort)) < old(|active|) ==>
                s == old(PtrAt(active, FindIndex(heap, active, clientIP, clientPort))) && unchanged(this)
      ensures old(FindIndex(heap, active, clientIP, clientPort)) == old(|active|) && old(sessionCount) as int < MAX_SESSIONS ==>
                && s.Ref? && s.addr !in old(heap)
                && active == [s.addr] + old(active) && archived == old(archived)
                && heap[s.addr] == NewSession().(clientIP := clientIP, clientPort := clientPort, next := old(firstActive))
                && sessionCount as int == old(sessionCount) as int + 1
                && activeSessionCount as int == old(activeSessionCount) as int + 1
                && archivedSessionCount == old(archivedSessionCount)
      ensures old(FindIndex(heap, active, clientIP, clientPort)) == old(|active|) && old(sessionCount) as int >= MAX_SESSIONS ==>
                s == Null && unchanged(this)
      ensures s.Ref? ==> s == PtrAt(active, FindIndex(heap, active, clientIP, clientPort))
      ensures old(CountsAgree()) ==> CountsAgree()
      ensures ContentsKept(old(heap), heap, Null)
      ensures forall ip: uint32, port: uint16 :: !(ip == clientIP && port == clientPort) ==>
                SameLookup(old(heap), old(active), heap, active, ip, port)
      ensures forall ip: uint32, port: uint16 :: SameLookup(old(heap), old(archived), heap, archived, ip, port)
    {
      s := FindActive(clientIP, clientPort);
      if s == Null {
        ghost var h0, f0, act0, arc0 := heap, firstActive, active, archived;
        var rc;
        rc, s := CreateSession(true);
        if rc == NOERROR {
          LinkNewActive(s.addr, clientIP, clientPort);
          LinkKeepsContents(h0, f0, s.addr, NewSession().(clientIP := clientIP, clientPort := clientPort));
          PrependKeepsLookups(h0, heap, s.addr, act0, arc0);
        } else {
          s := Null;
          SameLookupRefl(heap, active);
          SameLookupRefl(heap, archived);
        }
      } else {
        SameLookupRefl(heap, active);
        SameLookupRefl(heap, archived);
      }
    }

    /**
     * removeActive: ERROR when no active session has the key; otherwise the
     * session is marked inactive, unlinked from the active list and appended
     * to the archive.
     */
    method RemoveActive(clientIP: uint32, clientPort: uint16) returns (rc: int)
      requires Valid()
      modifies this
      ensures Valid()
      ensures old(FindIndex(heap, active, clientIP, clientPort)) == old(|active|) ==> rc == ERROR && unchanged(this)
      ensures old(FindIndex(heap, active, clientIP, clientPort)) < old(|active|) ==>
                var k := old(FindIndex(heap, active, clientIP, clientPort));
                var a := old(active[k]);
                && rc == NOERROR
                && active == old(active[..k] + active[k + 1..]) && a !in active
                && archived == old(archived) + [a]
                && !heap[a].isActive && lastSession == Ref(a)
                && activeSessionCount as int == old(activeSessionCount) as int - 1
                && archivedSessionCount == Inc32(old(archivedSessionCount))
                && sessionCount == old(sessionCount)
                && heap.Keys == old(heap).Keys && ContentsKept(old(heap), heap, Ref(a))
                && (old(FindIndex(heap, archived, clientIP, clientPort)) == old(|archived|) ==>
                      PtrAt(archived, FindIndex(heap, archived, clientIP, clientPort)) == Ref(a))
      ensures old(CountsAgree()) ==> CountsAgree()
      ensures forall ip: uint32, port: uint16 :: !(ip == clientIP && port == clientPort) ==>
                SameLookup(old(heap), old(active), heap, active, ip, port)
                && SameLookup(old(heap), old(archived), heap, archived, ip, port)
    {
      var s := FindActive(clientIP, clientPort);
      if s.Ref? {
        ArchiveActive(FindIndex(heap, active, clientIP, clientPort), s.addr, clientIP, clientPort);
        rc := NOERROR;
      } else {
        SameLookupRefl(heap, active);
        SameLookupRefl(heap, archived);
        rc := ERROR;
      }
    }

    /**
     * The statements of removeActive once the session a, the k-th active
     * one and the first with the key, has been found: it is unlinked from
     * the active list and appended to the archive.
     */
    method ArchiveActive(ghost k: nat, a: nat, ghost clientIP: uint32, ghost clientPort: uint16)
      requires Valid()
      requires k == FindIndex(heap, active, clientIP, clientPort) < |active| && active[k] == a
      modifies this
      ensures Valid()
      ensures active == old(active[..k] + active[k + 1..]) && a !in active
      ensures archived == old(archived) + [a]
      ensures !heap[a].isActive && lastSession == Ref(a)
      ensures activeSessionCount as int == old(activeSessionCount) as int - 1
      ensures archivedSessionCount == Inc32(old(archivedSessionCount))
      ensures sessionCount == old(sessionCount)
      ensures heap.Keys == old(heap).Keys && ContentsKept(old(heap), heap, Ref(a))
      ensures old(FindIndex(heap, archived, clientIP, clientPort)) == old(|archived|) ==>
                PtrAt(archived, FindIndex(heap, archived, clientIP, clientPort)) == Ref(a)
      ensures old(CountsAgree()) ==> CountsAgree()
      ensures forall ip: uint32, port: uint16 :: !(ip == clientIP && port == clientPort) ==>
                SameLookup(old(heap), old(active), heap, active, ip, port)
                && SameLookup(old(heap), old(archived), heap, archived, ip, port)
    {
      ghost var h0, act0, arc0 := heap, active, archived;
      UnlinkActive(k, a);
      ghost var h1 := heap;
      AppendToArchive(a);
      ContentsKeptTrans(h0, h1, heap, Ref(a));
      MoveKeepsLookups(h0, heap, act0, arc0, k, clientIP, clientPort);
    }

    /**
     * The statements of getActive once createSession has succeeded: the new
     * session at a gets the key and goes to the head of the active list.
     */
    method LinkNewActive(a: nat, clientIP: uint32, clientPort: uint16)
      requires Valid()
      requires a in heap && heap[a] == NewSession() && a !in active && a !in archived
      requires (sessionCount as int) < MAX_SESSIONS
      modifies this
      ensures Valid()
      ensures active == [a] + old(active) && archived == old(archived)
      ensures heap[a] == NewSession().(clientIP := clientIP, clientPort := clientPort, next := old(firstActive))
      ensures FindIndex(heap, active, clientIP, clientPort) == 0
      ensures old(firstActive) != Ref(a)
      ensures heap == LinkAtHead(old(heap), old(firstActive), a, NewSession().(clientIP := clientIP, clientPort := clientPort)).0
      ensures sessionCount as int == old(sessionCount) as int + 1
      ensures activeSessionCount as int == old(activeSessionCount) as int + 1
      ensures archivedSessionCount == old(archivedSessionCount)
    {
      var rec := heap[a].(clientIP := clientIP, clientPort := clientPort);
      LinkAtHeadEffect(heap, firstActive, active, a, rec);
      LinkKeepsLists(heap, firstActive, firstSession, lastSession, nextAddr, active, archived, a, rec);
      var linked := LinkAtHead(heap, firstActive, a, rec);
      heap, firstActive := linked.0, linked.1;
      active := [a] + active;
      sessionCount := sessionCount + 1;
      activeSessionCount := activeSessionCount + 1;
      FindIndexIsFirst(heap, active, clientIP, clientPort, 0);
    }

    /**
     * The first half of removeActive once the k-th active session, at a, is
     * found: the active counter drops, the session is marked inactive and
     * unlinked from the active list; it is then on neither list.
     */
    method UnlinkActive(ghost k: nat, a: nat)
      requires Valid()
      requires k < |active| && active[k] == a
      modifies this
      ensures ListsValid(heap, firstActive, firstSession, lastSession, nextAddr, active, archived)
      ensures active == old(active[..k] + active[k + 1..]) && archived == old(archived)
      ensures a in heap && !heap[a].isActive && a !in active && a !in archived
      ensures heap.Keys == old(heap).Keys && ContentsKept(old(heap), heap, Ref(a))
      ensures activeSessionCount as int == old(activeSessionCount) as int - 1 == |active|
      ensures sessionCount == old(sessionCount) && archivedSessionCount == old(archivedSessionCount)
    {
      activeSessionCount := activeSessionCount - 1;
      MarkUnlinkKeepsLists(heap, firstActive, firstSession, lastSession, nextAddr, active, archived, k);
      ghost var h0, f0 := heap, firstActive;
      var marked := heap[a := heap[a].(isActive := false)];
      var unlinked := Unlink(marked, firstActive, a);
      heap, firstActive := unlinked.0, unlinked.1;
      active := active[..k] + active[k + 1..];
      MarkUnlinkKeepsContents(h0, f0, a);
    }

    /**
     * The second half of removeActive: the session at a, on neither list,
     * is appended at the tail of the archive and the archive counter grows.
     */
    method AppendToArchive(a: nat)
      requires ListsValid(heap, firstActive, firstSession, lastSession, nextAddr, active, archived)
      requires a in heap && !heap[a].isActive && a !in active && a !in archived
      requires activeSessionCount as int == |active|
      requires sessionCount as int == |active| + |archived| + 1 <= MAX_SESSIONS
      modifies this
      ensures Valid()
      ensures active == old(active) && archived == old(archived) + [a]
      ensures !heap[a].isActive && lastSession == Ref(a)
      ensures heap.Keys == old(heap).Keys && ContentsKept(old(heap), heap, Null)
      ensures archivedSessionCount == Inc32(old(archivedSessionCount))
      ensures sessionCount == old(sessionCount) && activeSessionCount == old(activeSessionCount)
    {
      ArchiveKeepsLists(heap, firstActive, firstSession, lastSession, nextAddr, active, archived, a);
      archivedSessionCount := Inc32(archivedSessionCount);
      ghost var h0, first0, last0 := heap, firstSession, lastSession;
      var appended := AppendArchive(heap, firstSession, lastSession, a);
      heap, firstSession, lastSession := appended.0, appended.1, appended.2;
      archived := archived + [a];
      AppendArchiveKeepsContents(h0, first0, last0, a);
    }

    /**
     * freeAllSessions: frees every archived session from the head on and
     * returns how many. sessionCount drops by that number; lastSession and
     * archivedSessionCount are left as they were.
     */
    method FreeAllSessions() returns (rc: uint32)
      requires Valid()
      modifies this
      ensures Valid()
      ensures rc as int == |old(archived)|
      ensures archived == [] && firstSession == Null
      ensures forall x :: x in heap <==> x in old(heap) && x !in old(archived)
      ensures forall x :: x in heap ==> heap[x] == old(heap)[x]
      ensures sessionCount as int == old(sessionCount) as int - |old(archived)|
      ensures active == old(active) && firstActive == old(firstActive) && activeSessionCount == old(activeSessionCount)
      ensures lastSession == old(lastSession) && archivedSessionCount == old(archivedSessionCount)
      ensures old(CountsAgree()) && rc > 0 ==> !CountsAgree()
    {
      rc := 0;
      ghost var freed: seq<nat> := [];
      while firstSession != Null
        invariant Valid()
        invariant old(archived) == freed + archived
        invariant forall x :: x in heap <==> x in old(heap) && x !in freed
        invariant forall x :: x in heap ==> heap[x] == old(heap)[x]
        invariant rc as int == |freed|
        invariant sessionCount as int == old(sessionCount) as int - |freed|
        invariant active == old(active) && firstActive == old(firstActive) && activeSessionCount == old(activeSessionCount)
        invariant lastSession == old(lastSession) && archivedSessionCount == old(archivedSessionCount)
        decreases |archived|
      {
        ghost var before := archived;
        var tofree := FreeFirstArchived();
        MoveHead(freed, before);
        rc := rc + 1;
        freed := freed + [tofree];
      }
    }

    /**
     * One turn of freeAllSessions' loop: sessionCount drops and the head of
     * the archive is freed; firstSession moves to its successor.
     */
    method FreeFirstArchived() returns (tofree: nat)
      requires Valid() && firstSession != Null
      modifies this
      ensures Valid()
      ensures old(archived) != [] && tofree == old(archived[0]) && archived == old(archived[1..])
      ensures heap == old(heap) - {tofree}
      ensures sessionCount as int == old(sessionCount) as int - 1
      ensures active == old(active) && firstActive == old(firstActive) && activeSessionCount == old(activeSessionCount)
      ensures lastSession == old(lastSession) && archivedSessionCount == old(archivedSessionCount)
    {
      FreeHeadKeepsLists(heap, firstActive, firstSession, lastSession, nextAddr, active, archived);
      sessionCount := sessionCount - 1;
      tofree := firstSession.addr;
      firstSession := heap[tofree].next;
      heap := heap - {tofree};
      archived := archived[1..];
    }

    /**
     * initSessions: when sessionCount is not zero, frees the archived
     * sessions as freeAllSessions does; then both lists are emptied and the
     * three counters zeroed. Active sessions are dropped without being freed.
     */
    method InitSessions()
      requires Valid()
      modifies this
      ensures Valid() && CountsAgree()
      ensures active == [] && archived == []
      ensures firstActive == Null && firstSession == Null && lastSession == Null
      ensures sessionCount == 0 && activeSessionCount == 0 && archivedSessionCount == 0
      ensures forall x :: x in heap <==> x in old(heap) && x !in old(archived)
      ensures forall x :: x in heap ==> heap[x] == old(heap)[x]
      ensures forall i :: 0 <= i < |old(active)| ==> old(active)[i] in heap
    {
      if sessionCount > 0 {
        var _ := FreeAllSessions();
      }
      firstSession := Null;
      lastSession := Null;
      archivedSessionCount := 0;
      firstActive := Null;
      activeSessionCount := 0;
      sessionCount := 0;
      active := [];
    }
  }
}
