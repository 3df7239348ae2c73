/** Longest prefix match over IPv4 routes, as mathematics: bit paths, network addresses, the table of routes a trie
    stores, and the flat list of routes that a router could scan instead. */
module LpmTable {
  import opened Packets
  import opened Bitwise

  type Bit = b: int | b == 0 || b == 1
  type Path = seq<Bit>

  datatype RouteEntry = RouteEntry(prefix: uint32, prefixLen: nat, nextHop: uint32,
                                   egressIfindex: uint32, metric: uint32)

  // ---- Addresses ----

  /** `(x >> (31 - i)) & 1`. */
  function BitOf(x: uint32, i: nat): Bit
    requires i < 32
  {
    ShiftRight(x, 31 - i) % 2
  }

  /** The first `n` bits of an address, most significant first. */
  function Bits(x: uint32, n: nat): (p: Path)
    requires n <= 32
    ensures |p| == n
  {
    seq(n, i requires 0 <= i < n => BitOf(x, i))
  }

  /** The address with all but its first `n` bits cleared. */
  function Network(x: uint32, n: nat): int
    requires n <= 32
  {
    x - x % Pow2(32 - n)
  }

  /** The route's network contains the address. */
  predicate Matches(e: RouteEntry, ip: uint32)
    requires e.prefixLen <= 32
  {
    Network(ip, e.prefixLen) == Network(e.prefix, e.prefixLen)
  }

  lemma DivMod(x: nat, k: nat)
    requires k > 0
    ensures x - x % k == (x / k) * k
  {
  }

  lemma {:induction false} ShiftedOut(x: uint32)
    ensures ShiftRight(x, 32) == 0
  {
    ShiftDivides(x, 32);
    Pow2Of32();
  }

  /** Two addresses have the same first `n` bits exactly when shifting the rest away makes them equal. */
  lemma {:induction false} BitsAreShift(x: uint32, y: uint32, n: nat)
    requires n <= 32
    ensures Bits(x, n) == Bits(y, n) <==> ShiftRight(x, 32 - n) == ShiftRight(y, 32 - n)
  {
    if n == 0 {
      ShiftedOut(x);
      ShiftedOut(y);
    } else {
      BitsAreShift(x, y, n - 1);
      BitsNext(x, n - 1);
      BitsNext(y, n - 1);
      assert Bits(x, n)[..n - 1] == Bits(x, n - 1) && Bits(y, n)[..n - 1] == Bits(y, n - 1);
      assert Bits(x, n)[n - 1] == BitOf(x, n - 1) && Bits(y, n)[n - 1] == BitOf(y, n - 1);
    }
  }

  /** A trie path identifies a masked network: host bits of a stored prefix do not matter. */
  lemma PathIsNetwork(x: uint32, y: uint32, n: nat)
    requires n <= 32
    ensures Bits(x, n) == Bits(y, n) <==> Network(x, n) == Network(y, n)
  {
    BitsAreShift(x, y, n);
    ShiftDivides(x, 32 - n);
    ShiftDivides(y, 32 - n);
    SameMultiple(x, y, Pow2(32 - n));
  }

  lemma SameMultiple(x: nat, y: nat, k: nat)
    requires k > 0
    ensures x / k == y / k <==> x - x % k == y - y % k
  {
    DivMod(x, k);
    DivMod(y, k);
    assert (x / k - y / k) * k == (x / k) * k - (y / k) * k;
    MultipleGrows(x / k - y / k, k);
  }

  lemma BitsPrefix(x: uint32, m: nat, n: nat)
    requires m <= n <= 32
    ensures Bits(x, n)[..m] == Bits(x, m)
  {
  }

  lemma BitsNext(x: uint32, n: nat)
    requires n < 32
    ensures Bits(x, n + 1) == Bits(x, n) + [BitOf(x, n)]
  {
  }

  // ---- The table a trie stores ----

  /** The path of a route: the bits of its prefix that are not host bits. */
  function Key(e: RouteEntry): Path
    requires e.prefixLen <= 32
  {
    Bits(e.prefix, e.prefixLen)
  }

  ghost predicate TableInv(t: map<Path, RouteEntry>)
  {
    forall k | k in t :: t[k].prefixLen <= 32 && Key(t[k]) == k
  }

  /** The entry at the longest of the first `n + 1` prefixes of `bits` that is in the table. */
  function Best(t: map<Path, RouteEntry>, bits: Path, n: nat): Option<RouteEntry>
    requires n <= |bits|
  {
    if bits[..n] in t then Some(t[bits[..n]])
    else if n == 0 then None
    else Best(t, bits, n - 1)
  }

  function Longest(t: map<Path, RouteEntry>, ip: uint32): Option<RouteEntry>
  {
    Best(t, Bits(ip, 32), 32)
  }

  ghost function Stored(t: map<Path, RouteEntry>): iset<RouteEntry>
  {
    iset k | k in t :: t[k]
  }

  /** `r` is what longest prefix matching over `routes` must answer. */
  ghost predicate IsLongestMatch(r: Option<RouteEntry>, routes: iset<RouteEntry>, ip: uint32)
    requires forall e :: e in routes ==> e.prefixLen <= 32
  {
    match r
    case None => forall e :: e in routes ==> !Matches(e, ip)
    case Some(best) =>
      && best in routes && Matches(best, ip)
      && forall e :: e in routes && Matches(e, ip) ==> e.prefixLen <= best.prefixLen
  }

  lemma {:induction false} BestAmong(t: map<Path, RouteEntry>, bits: Path, n: nat)
    requires n <= |bits|
    ensures var r := Best(t, bits, n);
            && (r.None? ==> forall i | 0 <= i <= n :: bits[..i] !in t)
            && (r.Some? ==> exists i | 0 <= i <= n ::
                  bits[..i] in t && t[bits[..i]] == r.value && forall j | i < j <= n :: bits[..j] !in t)
  {
    if bits[..n] !in t && n > 0 {
      BestAmong(t, bits, n - 1);
    }
  }

  lemma KeyMatches(e: RouteEntry, ip: uint32)
    requires e.prefixLen <= 32
    ensures Matches(e, ip) <==> Bits(ip, 32)[..e.prefixLen] == Key(e)
  {
    BitsPrefix(ip, e.prefixLen, 32);
    PathIsNetwork(ip, e.prefix, e.prefixLen);
  }

  /** Walking the prefixes of an address answers exactly the longest matching stored route. */
  lemma LongestIsLongestMatch(t: map<Path, RouteEntry>, ip: uint32)
    requires TableInv(t)
    ensures IsLongestMatch(Longest(t, ip), Stored(t), ip)
  {
    var bits := Bits(ip, 32);
    BestAmong(t, bits, 32);
    forall k | k in t ensures Matches(t[k], ip) <==> bits[..|k|] == k {
      KeyMatches(t[k], ip);
    }
  }

  /** A longest match is unique: two stored routes of one length that match one address are the same route. */
  lemma LongestMatchIsUnique(t: map<Path, RouteEntry>, ip: uint32, a: Option<RouteEntry>, b: Option<RouteEntry>)
    requires TableInv(t) && IsLongestMatch(a, Stored(t), ip) && IsLongestMatch(b, Stored(t), ip)
    ensures a == b
  {
    if a.Some? && b.Some? {
      KeyMatches(a.value, ip);
      KeyMatches(b.value, ip);
    }
  }

  // ---- Updates, on the table and on a flat list of routes ----

  datatype Update = Insert(entry: RouteEntry) | Delete(prefix: uint32, prefixLen: nat)

  function UpdateTable(t: map<Path, RouteEntry>, u: Update): (map<Path, RouteEntry>, bool)
  {
    match u
    case Insert(e) =>
      if e.prefixLen > 32 then (t, false) else (t[Key(e) := e], true)
    case Delete(p, n) =>
      if n > 32 || Bits(p, n) !in t then (t, false) else (t - {Bits(p, n)}, true)
  }

  function TableAfter(us: seq<Update>): map<Path, RouteEntry>
  {
    if us == [] then map[] else UpdateTable(TableAfter(us[..|us| - 1]), us[|us| - 1]).0
  }

  predicate SameNetwork(e: RouteEntry, p: uint32, n: nat)
    requires e.prefixLen <= 32
  {
    e.prefixLen == n && Network(e.prefix, n) == Network(p, n)
  }

  type RouteList = rs: seq<RouteEntry> | forall i :: 0 <= i < |rs| ==> rs[i].prefixLen <= 32

  function Without(rs: RouteList, p: uint32, n: nat): (r: RouteList)
  {
    if rs == [] then [] else
      var last := rs[|rs| - 1];
      Without(rs[..|rs| - 1], p, n) + if SameNetwork(last, p, n) then [] else [last]
  }

  function UpdateList(rs: RouteList, u: Update): (RouteList, bool)
  {
    match u
    case Insert(e) =>
      if e.prefixLen > 32 then (rs, false) else (Without(rs, e.prefix, e.prefixLen) + [e], true)
    case Delete(p, n) =>
      var rs' := Without(rs, p, n);
      (rs', rs' != rs)
  }

  function ListAfter(us: seq<Update>): RouteList
  {
    if us == [] then [] else UpdateList(ListAfter(us[..|us| - 1]), us[|us| - 1]).0
  }

  /** Scans all routes and keeps the longest match. */
  function Scan(rs: RouteList, ip: uint32): Option<RouteEntry>
  {
    if rs == [] then None else
      var e := rs[|rs| - 1];
      var best := Scan(rs[..|rs| - 1], ip);
      if Matches(e, ip) && (best.None? || e.prefixLen > best.value.prefixLen) then Some(e) else best
  }

  /** The list holds the table's entries and no others. */
  ghost predicate Agree(t: map<Path, RouteEntry>, rs: RouteList)
  {
    && TableInv(t)
    && (forall k | k in t :: t[k] in rs)
    && (forall e | e in rs :: Key(e) in t && t[Key(e)] == e)
  }

  lemma {:induction false} WithoutContains(rs: RouteList, p: uint32, n: nat)
    ensures forall e :: e in Without(rs, p, n) <==> e in rs && !SameNetwork(e, p, n)
    ensures |Without(rs, p, n)| <= |rs|
    ensures Without(rs, p, n) == rs <==> forall e :: e in rs ==> !SameNetwork(e, p, n)
  {
    if rs != [] {
      var front, last := rs[..|rs| - 1], rs[|rs| - 1];
      WithoutContains(front, p, n);
      assert rs == front + [last];
      var kept := Without(front, p, n);
      if SameNetwork(last, p, n) {
        assert Without(rs, p, n) == kept;
      } else {
        assert Without(rs, p, n) == kept + [last];
        assert (kept + [last])[..|kept|] == kept;
      }
    }
  }

  lemma {:induction false} ScanIsLongestMatch(rs: RouteList, ip: uint32)
    ensures IsLongestMatch(Scan(rs, ip), (iset e | e in rs), ip)
  {
    if rs != [] {
      var front, last := rs[..|rs| - 1], rs[|rs| - 1];
      ScanIsLongestMatch(front, ip);
      assert rs == front + [last];
    }
  }

  lemma UpdatesAgree(t: map<Path, RouteEntry>, rs: RouteList, u: Update)
    requires Agree(t, rs)
    ensures Agree(UpdateTable(t, u).0, UpdateList(rs, u).0)
    ensures UpdateTable(t, u).1 == UpdateList(rs, u).1
  {
    var p, n := if u.Insert? then u.entry.prefix else u.prefix, if u.Insert? then u.entry.prefixLen else u.prefixLen;
    WithoutContains(rs, p, n);
    if n <= 32 {
      var key := Bits(p, n);
      forall e | e in rs ensures SameNetwork(e, p, n) <==> Key(e) == key {
        if e.prefixLen == n { PathIsNetwork(e.prefix, p, n); }
      }
      var (t', ok) := UpdateTable(t, u);
      var rs' := UpdateList(rs, u).0;
      if u.Insert? {
        assert rs'[|rs'| - 1] == u.entry;
        forall k | k in t' ensures t'[k] in rs' {
          if k != key {
            assert t'[k] == t[k] && t[k] in Without(rs, p, n);
          }
        }
      }
    }
  }

  /** After any sequence of inserts and deletes, walking the trie's table answers as scanning the list of routes
      would, and every update reports success in the same cases. */
  lemma {:induction false} TrieAgreesWithScan(us: seq<Update>, ip: uint32)
    ensures Agree(TableAfter(us), ListAfter(us))
    ensures Longest(TableAfter(us), ip) == Scan(ListAfter(us), ip)
    ensures us != [] ==> var before := us[..|us| - 1]; var u := us[|us| - 1];
              UpdateTable(TableAfter(before), u).1 == UpdateList(ListAfter(before), u).1
  {
    if us != [] {
      TrieAgreesWithScan(us[..|us| - 1], ip);
      UpdatesAgree(TableAfter(us[..|us| - 1]), ListAfter(us[..|us| - 1]), us[|us| - 1]);
    }
    var t, rs := TableAfter(us), ListAfter(us);
    LongestIsLongestMatch(t, ip);
    ScanIsLongestMatch(rs, ip);
    assert Stored(t) == (iset e | e in rs);
    LongestMatchIsUnique(t, ip, Longest(t, ip), Scan(rs, ip));
  }

  /** A delete succeeds exactly when a route of that length to that network is stored, and removes just that one. */
  lemma DeleteSucceedsIff(t: map<Path, RouteEntry>, p: uint32, n: nat)
    requires TableInv(t)
    ensures var (t', ok) := UpdateTable(t, Delete(p, n));
            && (ok <==> exists e :: e in Stored(t) && e.prefixLen == n && Network(e.prefix, n) == Network(p, n))
            && forall e :: e in Stored(t') <==>
                 e in Stored(t) && !(e.prefixLen == n && Network(e.prefix, n) == Network(p, n))
  {
    var (t', ok) := UpdateTable(t, Delete(p, n));
    forall e | e in Stored(t) && e.prefixLen == n ensures n <= 32 && (Network(e.prefix, n) == Network(p, n) <==>
      Key(e) == Bits(p, n))
    {
      PathIsNetwork(e.prefix, p, n);
    }
    if ok {
      assert t[Bits(p, n)] in Stored(t);
    }
    forall e ensures e in Stored(t') <==>
        e in Stored(t) && !(e.prefixLen == n && Network(e.prefix, n) == Network(p, n))
    {
      if e in Stored(t) && !(e.prefixLen == n && Network(e.prefix, n) == Network(p, n)) {
        assert Key(e) in t' && t'[Key(e)] == e;
      }
    }
  }

  /** Inserting an absent network and deleting it again restores the table, hence every lookup. */
  lemma InsertThenDelete(t: map<Path, RouteEntry>, e: RouteEntry)
    requires e.prefixLen <= 32 && Key(e) !in t
    ensures var t' := UpdateTable(t, Insert(e)).0;
            UpdateTable(t', Delete(e.prefix, e.prefixLen)) == (t, true)
  {
    assert t[Key(e) := e] - {Key(e)} == t;
  }

  lemma StoredAfterInsert(t: map<Path, RouteEntry>, e: RouteEntry)
    requires TableInv(t) && e.prefixLen <= 32
    ensures TableInv(t[Key(e) := e])
    ensures forall x :: x in Stored(t[Key(e) := e]) <==> x == e || (x in Stored(t) && Key(x) != Key(e))
  {
    var t' := t[Key(e) := e];
    forall x | x == e || (x in Stored(t) && Key(x) != Key(e)) ensures x in Stored(t') {
      assert Key(x) in t' && t'[Key(x)] == x;
    }
  }

  /** An insert changes the answer for no address outside the inserted network, and for those inside exactly where
      no longer stored prefix matches. */
  lemma InsertIsLocal(t: map<Path, RouteEntry>, e: RouteEntry, ip: uint32)
    requires TableInv(t) && e.prefixLen <= 32
    ensures var r := Longest(t, ip);
            Longest(UpdateTable(t, Insert(e)).0, ip) ==
              if !Matches(e, ip) || (r.Some? && r.value.prefixLen > e.prefixLen) then r else Some(e)
  {
    var t', r := t[Key(e) := e], Longest(t, ip);
    StoredAfterInsert(t, e);
    LongestIsLongestMatch(t, ip);
    LongestIsLongestMatch(t', ip);
    forall x | x in Stored(t) && Key(x) == Key(e)
      ensures Matches(x, ip) == Matches(e, ip) && x.prefixLen == e.prefixLen
    {
      KeyMatches(x, ip);
      KeyMatches(e, ip);
    }
    var answer := if !Matches(e, ip) || (r.Some? && r.value.prefixLen > e.prefixLen) then r else Some(e);
    assert IsLongestMatch(answer, Stored(t'), ip);
    LongestMatchIsUnique(t', ip, answer, Longest(t', ip));
  }

  /** A delete changes the answer exactly for the addresses whose longest match was the deleted route. */
  lemma DeleteIsLocal(t: map<Path, RouteEntry>, p: uint32, n: nat, ip: uint32)
    requires TableInv(t) && n <= 32
    ensures var r := Longest(t, ip);
            Longest(UpdateTable(t, Delete(p, n)).0, ip) == r <==>
              !(r.Some? && r.value.prefixLen == n && Network(r.value.prefix, n) == Network(p, n))
  {
    var t', r := t - {Bits(p, n)}, Longest(t, ip);
    LongestIsLongestMatch(t, ip);
    LongestIsLongestMatch(t', ip);
    if r.Some? && r.value.prefixLen == n {
      PathIsNetwork(r.value.prefix, p, n);
    }
    if r.None? || Key(r.value) != Bits(p, n) {
      assert r.Some? ==> Key(r.value) in t' && t'[Key(r.value)] == r.value;
      assert IsLongestMatch(r, Stored(t'), ip);
      LongestMatchIsUnique(t', ip, r, Longest(t', ip));
    }
  }
}
