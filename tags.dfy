/**
 * The tag table of an OSM element: a hand-written open-addressing hash
 * table on two parallel arrays, keys and values, whose capacity is a
 * power of two. A key's home slot is its hash code masked by
 * capacity - 1; probing starts at the slot after home, wraps at the end
 * and never examines home itself. Removing a tag nulls its value and
 * leaves its key in place (a tombstone) until the table is resized.
 *
 * While an iterator is active the table is frozen: puts go to a side
 * chain of extra entries, which is replayed into the table when the
 * iteration ends (or when the table is copied or iterated again).
 *
 * Java's null is None; String.hashCode is a parameter.
 */
module Tags {
  import opened JavaInt
  import opened Wrappers

  const INIT_SIZE: int := 8
  /** The largest power of two a Java short holds; doubling it wraps to a negative short. */
  const MAX_CAPACITY: int := 0x4000

  /** String.hashCode. */
  type Hash = string -> int32

  /** A keys or values array: a slot holds null or a string. */
  type Slots = seq<Option<string>>

  predicate PowerOfTwo(n: int)
    decreases n
  {
    n == 1 || (n > 1 && n % 2 == 0 && PowerOfTwo(n / 2))
  }

  /**
   * The home slot h & (capacity - 1). For a power-of-two capacity the mask
   * keeps the low bits of the two's-complement hash, which is h modulo
   * capacity, non-negative also for a negative h.
   */
  function Home(h: int, capacity: int): (k: int)
    requires capacity > 0
    ensures 0 <= k < capacity
  {
    h % capacity
  }

  /** Between two powers of two m and 2m there is none. */
  lemma {:induction false} PowerOfTwoGap(n: int, m: int)
    requires PowerOfTwo(n) && PowerOfTwo(m) && n < 2 * m
    ensures n <= m
    decreases m
  {
    if m > 1 && n > 1 {
      PowerOfTwoGap(n / 2, m / 2);
    }
  }

  /** A power of two above another is at least its double, so a grown table has at least twice the slots. */
  lemma PowerOfTwoAbove(n: int, m: int)
    requires PowerOfTwo(n) && PowerOfTwo(m) && m < n
    ensures 2 * m <= n
  {
    if n < 2 * m {
      PowerOfTwoGap(n, m);
    }
  }

  /**
   * The slot keyPos examines at step j (j = 0 first): home + 1 + j, brought
   * back into the table by one subtraction of capacity, as the loop's
   * `i -= capacity` does. Within the capacity - 1 steps it never is home.
   */
  function ProbeSlot(home: int, j: int, capacity: int): (s: int)
    requires 0 <= home < capacity && 0 <= j < capacity
    ensures 0 <= s < capacity
    ensures j < capacity - 1 ==> s != home
  {
    var i := home + 1 + j;
    if i >= capacity then i - capacity else i
  }

  /**
   * keyPos from step j on: the first slot examined that holds no key or
   * holds key itself, or None when the capacity - 1 slots besides home all
   * hold other keys.
   */
  function FindFrom(ks: Slots, key: string, home: int, j: nat): (r: Option<nat>)
    requires 0 <= home < |ks|
    ensures r.Some? ==> r.value < |ks| && r.value != home && (ks[r.value].None? || ks[r.value] == Some(key))
    decreases |ks| - j
  {
    if j >= |ks| - 1 then None
    else
      var s := ProbeSlot(home, j, |ks|);
      if ks[s].None? || ks[s] == Some(key) then Some(s) else FindFrom(ks, key, home, j + 1)
  }

  /** keyPos(key): the slot for key, or None. */
  function FindSlot(ks: Slots, key: string, hash: Hash): Option<nat>
    requires |ks| > 0
  {
    FindFrom(ks, key, Home(hash(key), |ks|), 0)
  }

  /** get(key): the value in the slot keyPos finds, null when it finds none. */
  function Lookup(ks: Slots, vs: Slots, key: string, hash: Hash): Option<string>
    requires 0 < |ks| == |vs|
  {
    match FindSlot(ks, key, hash)
    case None => None
    case Some(s) => vs[s]
  }

  /**
   * The table's invariant on its arrays: keyPos finds every stored key in
   * the slot it is stored in (so no key is stored twice), and a slot with
   * no key has no value.
   */
  ghost predicate ValidArrays(ks: Slots, vs: Slots, hash: Hash)
  {
    && 0 < |ks| == |vs|
    && (forall s :: 0 <= s < |ks| && ks[s].Some? ==> FindSlot(ks, ks[s].value, hash) == Some(s))
    && (forall s :: 0 <= s < |ks| && ks[s].None? ==> vs[s].None?)
  }

  /** Every key has the same value in both tables. */
  ghost predicate SameLookups(ks: Slots, vs: Slots, ks': Slots, vs': Slots, hash: Hash)
    requires 0 < |ks| == |vs| && 0 < |ks'| == |vs'|
  {
    forall y :: Lookup(ks', vs', y, hash) == Lookup(ks, vs, y, hash)
  }

  /** The second table is the first with key set to value and nothing else changed. */
  ghost predicate PutEffect(ks: Slots, vs: Slots, ks': Slots, vs': Slots, key: string, value: Option<string>, hash: Hash)
    requires 0 < |ks| == |vs| && 0 < |ks'| == |vs'|
  {
    && Lookup(ks', vs', key, hash) == value
    && forall y :: y != key ==> Lookup(ks', vs', y, hash) == Lookup(ks, vs, y, hash)
  }

  /** The number of slots holding a value. */
  function LiveCount(vs: Slots): (n: nat)
    ensures n <= |vs|
  {
    if vs == [] then 0 else LiveCount(vs[..|vs| - 1]) + (if vs[|vs| - 1].Some? then 1 else 0)
  }

  /** An array of capacity slots all null. */
  function Empty(capacity: nat): (r: Slots)
    ensures |r| == capacity && forall s :: 0 <= s < capacity ==> r[s].None?
  {
    seq(capacity, _ => None)
  }

  // ---------------------------------------------------------------------
  // Probing
  // ---------------------------------------------------------------------

  /**
   * Storing k in a slot p that is free or already holds k does not change
   * where the probe for another key stops, when that was not p.
   */
  lemma {:induction false} FindFromWrite(ks: Slots, y: string, home: int, j: nat, p: nat, k: string, s: nat)
    requires 0 <= home < |ks| && p < |ks| && (ks[p].None? || ks[p] == Some(k))
    requires FindFrom(ks, y, home, j) == Some(s) && s != p
    ensures FindFrom(ks[p := Some(k)], y, home, j) == Some(s)
    decreases |ks| - j
  {
    var t := ProbeSlot(home, j, |ks|);
    if !(ks[t].None? || ks[t] == Some(y)) {
      FindFromWrite(ks, y, home, j + 1, p, k, s);
    }
  }

  /** Storing key in the slot its probe stops at makes the probe stop there again. */
  lemma {:induction false} FindFromWritten(ks: Slots, key: string, home: int, j: nat, p: nat)
    requires 0 <= home < |ks| && FindFrom(ks, key, home, j) == Some(p)
    ensures FindFrom(ks[p := Some(key)], key, home, j) == Some(p)
    decreases |ks| - j
  {
    var t := ProbeSlot(home, j, |ks|);
    if t != p {
      FindFromWritten(ks, key, home, j + 1, p);
    }
  }

  /** A key that no slot holds is looked up as null. */
  lemma NotStoredLookup(ks: Slots, vs: Slots, y: string, hash: Hash)
    requires 0 < |ks| == |vs| && Some(y) !in ks
    requires forall s :: 0 <= s < |ks| && ks[s].None? ==> vs[s].None?
    ensures Lookup(ks, vs, y, hash) == None
  {
    match FindSlot(ks, y, hash)
    case None =>
    case Some(s) =>
      assert ks[s] != Some(y);
  }

  /** The count of values after one slot is overwritten. */
  lemma {:induction false} LiveCountUpdate(vs: Slots, p: nat, v: Option<string>)
    requires p < |vs|
    ensures LiveCount(vs[p := v]) == LiveCount(vs) - (if vs[p].Some? then 1 else 0) + (if v.Some? then 1 else 0)
    decreases |vs|
  {
    var n := |vs| - 1;
    if p < n {
      assert vs[p := v][..n] == vs[..n][p := v];
      LiveCountUpdate(vs[..n], p, v);
    } else {
      assert vs[p := v][..n] == vs[..n];
    }
  }

  /** An all-null array has no values. */
  lemma {:induction false} LiveCountEmpty(capacity: nat)
    ensures LiveCount(Empty(capacity)) == 0
    decreases capacity
  {
    if capacity > 0 {
      assert Empty(capacity)[..capacity - 1] == Empty(capacity - 1);
      LiveCountEmpty(capacity - 1);
    }
  }

  /** An all-null table satisfies the invariant and looks every key up as null. */
  lemma EmptyTable(capacity: nat, hash: Hash)
    requires capacity > 0
    ensures ValidArrays(Empty(capacity), Empty(capacity), hash)
    ensures forall y :: Lookup(Empty(capacity), Empty(capacity), y, hash) == None
    ensures LiveCount(Empty(capacity)) == 0
  {
    LiveCountEmpty(capacity);
    forall y ensures Lookup(Empty(capacity), Empty(capacity), y, hash) == None {
      NotStoredLookup(Empty(capacity), Empty(capacity), y, hash);
    }
  }

  // ---------------------------------------------------------------------
  // put and remove on the arrays
  // ---------------------------------------------------------------------

  /** Storing a key in the slot keyPos found keeps every other key locatable. */
  lemma WriteKeepsLocated(ks: Slots, k: string, p: nat, s: nat, hash: Hash)
    requires 0 < |ks| && (forall t :: 0 <= t < |ks| && ks[t].Some? ==> FindSlot(ks, ks[t].value, hash) == Some(t))
    requires FindSlot(ks, k, hash) == Some(p) && s < |ks| && ks[p := Some(k)][s].Some?
    ensures FindSlot(ks[p := Some(k)], ks[p := Some(k)][s].value, hash) == Some(s)
  {
    var ks' := ks[p := Some(k)];
    if s == p {
      FindFromWritten(ks, k, Home(hash(k), |ks|), 0, p);
    } else {
      var y := ks[s].value;
      FindFromWrite(ks, y, Home(hash(y), |ks|), 0, p, k, s);
    }
  }

  /** After storing k, another key y is looked up as before. */
  lemma WriteKeepsOthers(ks: Slots, vs: Slots, k: string, v: Option<string>, p: nat, y: string, hash: Hash)
    requires ValidArrays(ks, vs, hash) && FindSlot(ks, k, hash) == Some(p) && y != k
    ensures Lookup(ks[p := Some(k)], vs[p := v], y, hash) == Lookup(ks, vs, y, hash)
  {
    var ks', vs' := ks[p := Some(k)], vs[p := v];
    if Some(y) in ks {
      var u :| 0 <= u < |ks| && ks[u] == Some(y);
      assert FindSlot(ks, y, hash) == Some(u);
      FindFromWrite(ks, y, Home(hash(y), |ks|), 0, p, k, u);
    } else {
      assert Some(y) !in ks' by {
        forall u | 0 <= u < |ks'| ensures ks'[u] != Some(y) {
          if u != p {
            assert ks'[u] == ks[u];
          }
        }
      }
      NotStoredLookup(ks, vs, y, hash);
      NotStoredLookup(ks', vs', y, hash);
    }
  }

  /**
   * put's write: storing key and value in the slot keyPos found keeps the
   * invariant, sets key to value and leaves every other key as it was.
   */
  lemma PutArrays(ks: Slots, vs: Slots, key: string, value: Option<string>, p: nat, hash: Hash)
    requires ValidArrays(ks, vs, hash) && FindSlot(ks, key, hash) == Some(p)
    ensures ValidArrays(ks[p := Some(key)], vs[p := value], hash)
    ensures PutEffect(ks, vs, ks[p := Some(key)], vs[p := value], key, value, hash)
    ensures LiveCount(vs[p := value]) == LiveCount(vs) - (if vs[p].Some? then 1 else 0) + (if value.Some? then 1 else 0)
  {
    var ks', vs' := ks[p := Some(key)], vs[p := value];
    forall s | 0 <= s < |ks'| && ks'[s].Some?
      ensures FindSlot(ks', ks'[s].value, hash) == Some(s)
    {
      WriteKeepsLocated(ks, key, p, s, hash);
    }
    FindFromWritten(ks, key, Home(hash(key), |ks|), 0, p);
    forall y | y != key
      ensures Lookup(ks', vs', y, hash) == Lookup(ks, vs, y, hash)
    {
      WriteKeepsOthers(ks, vs, key, value, p, y, hash);
    }
    LiveCountUpdate(vs, p, value);
  }

  /** remove's write: nulling the value keyPos found keeps the invariant and removes only key. */
  lemma RemoveArrays(ks: Slots, vs: Slots, key: string, p: nat, hash: Hash)
    requires ValidArrays(ks, vs, hash) && FindSlot(ks, key, hash) == Some(p)
    ensures ValidArrays(ks, vs[p := None], hash)
    ensures PutEffect(ks, vs, ks, vs[p := None], key, None, hash)
    ensures LiveCount(vs[p := None]) == LiveCount(vs) - (if vs[p].Some? then 1 else 0)
  {
    var vs' := vs[p := None];
    forall y | y != key
      ensures Lookup(ks, vs', y, hash) == Lookup(ks, vs, y, hash)
    {
      match FindSlot(ks, y, hash)
      case None =>
      case Some(t) =>
        assert t == p ==> ks[p].None?;
    }
    LiveCountUpdate(vs, p, None);
  }

  /** Slot s holds a key other than key. */
  predicate Occupied(ks: Slots, key: string, s: int)
    requires 0 <= s < |ks|
  {
    ks[s].Some? && ks[s] != Some(key)
  }

  /** The probe from step j on finds nothing exactly when every slot it still visits holds another key. */
  lemma {:induction false} FindFromNone(ks: Slots, key: string, home: int, j: nat)
    requires 0 <= home < |ks|
    ensures FindFrom(ks, key, home, j).None?
        <==> forall t :: j <= t < |ks| - 1 ==> Occupied(ks, key, ProbeSlot(home, t, |ks|))
    decreases |ks| - j
  {
    if j < |ks| - 1 {
      FindFromNone(ks, key, home, j + 1);
    }
  }

  /**
   * keyPos finds no slot exactly when every slot but the home one holds
   * another key; the home slot itself is never examined.
   */
  lemma FindSlotNone(ks: Slots, key: string, hash: Hash)
    requires 0 < |ks|
    ensures FindSlot(ks, key, hash).None?
        <==> forall t :: 0 <= t < |ks| - 1 ==> Occupied(ks, key, ProbeSlot(Home(hash(key), |ks|), t, |ks|))
  {
    FindFromNone(ks, key, Home(hash(key), |ks|), 0);
  }

  /** A hash that sends every key to slot 1. */
  function OneHash(s: string): int32
  {
    1
  }

  /** The keys of the example table: slot 1 free, every other slot s holding the one-letter key 'a' + s. */
  function Letters(n: nat): (ks: Slots)
    requires n <= 26
    ensures |ks| == n
  {
    seq(n, s requires 0 <= s < n => if s == 1 then None else Some([(('a' as int) + s) as char]))
  }

  /** Every key of the example table is where keyPos looks for it. */
  lemma LettersValid(n: nat)
    requires 2 <= n <= 26
    ensures ValidArrays(Letters(n), Empty(n), OneHash)
  {
    var ks := Letters(n);
    assert 1 % n == 1;
    forall s | 0 <= s < n && ks[s].Some? ensures FindSlot(ks, ks[s].value, OneHash) == Some(s) {
      assert Home(OneHash(ks[s].value), n) == 1;
      var j := if s == 0 then n - 2 else s - 2;
      assert ProbeSlot(1, j, n) == s;
      forall t | 0 <= t < j ensures Occupied(ks, ks[s].value, ProbeSlot(1, t, n)) {
        LettersOccupied(n, s, ProbeSlot(1, t, n));
      }
      FindFromHit(ks, ks[s].value, 1, 0, j);
    }
  }

  /** Distinct slots of the example table hold distinct keys. */
  lemma LettersOccupied(n: nat, s: nat, p: nat)
    requires 2 <= n <= 26 && s < n && p < n && s != 1 && p != 1 && p != s
    ensures Occupied(Letters(n), Letters(n)[s].value, p)
  {
    assert Letters(n)[p].value[0] != Letters(n)[s].value[0];
  }

  /**
   * A reachable table in which put fails: every key sent to slot 1, and
   * the seven other slots filled by keys whose values were then removed
   * (put "c" to "h", then "a", removing each), so the live count is 0,
   * ensureSpace does not grow the table, and keyPos finds no slot for a
   * new key.
   */
  lemma PutFindsNoSlot()
    ensures ValidArrays(Letters(8), Empty(8), OneHash) && LiveCount(Empty(8)) == 0
    ensures FindSlot(Letters(8), "zz", OneHash) == None
  {
    LiveCountEmpty(8);
    LettersValid(8);
    assert Home(OneHash("zz"), 8) == 1;
    FindSlotNone(Letters(8), "zz", OneHash);
  }

  /** The probe from step i on finds key at its step j when every slot it examines before holds another key. */
  lemma {:induction false} FindFromHit(ks: Slots, key: string, home: int, i: nat, j: nat)
    requires 0 <= home < |ks| && i <= j < |ks| - 1 && ks[ProbeSlot(home, j, |ks|)] == Some(key)
    requires forall t :: i <= t < j ==> Occupied(ks, key, ProbeSlot(home, t, |ks|))
    ensures FindFrom(ks, key, home, i) == Some(ProbeSlot(home, j, |ks|))
    decreases j - i
  {
    if i < j {
      assert Occupied(ks, key, ProbeSlot(home, i, |ks|));
      FindFromHit(ks, key, home, i + 1, j);
    }
  }

  /** An array whose every slot but home holds a string has at least all but one slot filled. */
  lemma {:induction false} LiveCountAllBut(vs: Slots, home: int)
    requires forall s :: 0 <= s < |vs| && s != home ==> vs[s].Some?
    ensures LiveCount(vs) >= |vs| - (if 0 <= home < |vs| then 1 else 0)
    decreases |vs|
  {
    if vs != [] {
      var front := vs[..|vs| - 1];
      forall s | 0 <= s < |front| && s != home
        ensures front[s].Some?
      {
        assert front[s] == vs[s];
      }
      LiveCountAllBut(front, home);
    }
  }

  /**
   * keyPos finds no slot only in a table whose slots, home aside, all hold
   * keys: a table with fewer than capacity - 1 keys always has a slot.
   */
  lemma NoSlotFull(ks: Slots, key: string, hash: Hash)
    ensures 0 < |ks| && FindSlot(ks, key, hash).None? ==> LiveCount(ks) >= |ks| - 1
  {
    if 0 < |ks| && FindSlot(ks, key, hash).None? {
      var home := Home(hash(key), |ks|);
      FindSlotNone(ks, key, hash);
      forall s | 0 <= s < |ks| && s != home
        ensures ks[s].Some?
      {
        var t := if s > home then s - home - 1 else s + |ks| - home - 1;
        assert ProbeSlot(home, t, |ks|) == s;
        assert Occupied(ks, key, ProbeSlot(home, t, |ks|));
      }
      LiveCountAllBut(ks, home);
    }
  }

  /** Putting old slot i adds at most one key to the new table, so it never holds more keys than the old slots before it. */
  lemma RebuiltCount(ks: Slots, ks': Slots, oks: Slots, i: nat)
    requires i < |oks| && LiveCount(ks) <= LiveCount(oks[..i])
    requires LiveCount(ks') <= LiveCount(ks) + (if oks[i].Some? then 1 else 0)
    ensures LiveCount(ks') <= LiveCount(oks[..i + 1])
  {
    assert oks[..i + 1][..i] == oks[..i];
  }

  // ---------------------------------------------------------------------
  // ensureSpace's reinsertion and addExtraItems' replay
  // ---------------------------------------------------------------------

  /**
   * A table rebuilt from the first i slots of an old one: the keys stored
   * there have their old values, every other key is null.
   */
  ghost predicate Rebuilt(ks: Slots, vs: Slots, oks: Slots, ovs: Slots, i: nat, hash: Hash)
    requires 0 < |ks| == |vs| && 0 < |oks| == |ovs| && i <= |oks|
  {
    forall y :: Lookup(ks, vs, y, hash) == (if Some(y) in oks[..i] then Lookup(oks, ovs, y, hash) else None)
  }

  /** Putting slot i of the old table, when it has a key, extends the rebuilt part by one slot. */
  lemma RebuildStep(ks: Slots, vs: Slots, ks': Slots, vs': Slots, oks: Slots, ovs: Slots, i: nat, hash: Hash)
    requires 0 < |ks| == |vs| && 0 < |ks'| == |vs'| && ValidArrays(oks, ovs, hash) && i < |oks|
    requires Rebuilt(ks, vs, oks, ovs, i, hash)
    requires oks[i].Some? ==> PutEffect(ks, vs, ks', vs', oks[i].value, ovs[i], hash)
    requires oks[i].None? ==> SameLookups(ks, vs, ks', vs', hash)
    ensures Rebuilt(ks', vs', oks, ovs, i + 1, hash)
  {
    forall y ensures Lookup(ks', vs', y, hash) == (if Some(y) in oks[..i + 1] then Lookup(oks, ovs, y, hash) else None) {
      RebuildOne(ks, vs, ks', vs', oks, ovs, i, hash, y);
    }
  }

  /** RebuildStep for one key. */
  lemma RebuildOne(ks: Slots, vs: Slots, ks': Slots, vs': Slots, oks: Slots, ovs: Slots, i: nat, hash: Hash, y: string)
    requires 0 < |ks| == |vs| && 0 < |ks'| == |vs'| && ValidArrays(oks, ovs, hash) && i < |oks|
    requires Lookup(ks, vs, y, hash) == (if Some(y) in oks[..i] then Lookup(oks, ovs, y, hash) else None)
    requires oks[i].Some? ==> PutEffect(ks, vs, ks', vs', oks[i].value, ovs[i], hash)
    requires oks[i].None? ==> SameLookups(ks, vs, ks', vs', hash)
    ensures Lookup(ks', vs', y, hash) == (if Some(y) in oks[..i + 1] then Lookup(oks, ovs, y, hash) else None)
  {
    assert oks[..i + 1] == oks[..i] + [oks[i]];
    if oks[i] == Some(y) {
      assert FindSlot(oks, y, hash) == Some(i);
    }
  }

  /** A table rebuilt from all slots of the old one looks every key up as the old one did. */
  lemma RebuildDone(ks: Slots, vs: Slots, oks: Slots, ovs: Slots, hash: Hash)
    requires 0 < |ks| == |vs| && ValidArrays(oks, ovs, hash)
    requires Rebuilt(ks, vs, oks, ovs, |oks|, hash)
    ensures SameLookups(oks, ovs, ks, vs, hash)
  {
    assert oks[..|oks|] == oks;
    forall y ensures Lookup(ks, vs, y, hash) == Lookup(oks, ovs, y, hash) {
      if Some(y) !in oks {
        NotStoredLookup(oks, ovs, y, hash);
      }
    }
  }

  /** Looking keys up the same way is transitive. */
  lemma SameLookupsTrans(ks1: Slots, vs1: Slots, ks2: Slots, vs2: Slots, ks3: Slots, vs3: Slots, hash: Hash)
    requires 0 < |ks1| == |vs1| && 0 < |ks2| == |vs2| && 0 < |ks3| == |vs3|
    requires SameLookups(ks1, vs1, ks2, vs2, hash) && SameLookups(ks2, vs2, ks3, vs3, hash)
    ensures SameLookups(ks1, vs1, ks3, vs3, hash)
  {
  }

  /** An entry of the extra chain: a key and a value, which put allows to be null. */
  type Entry = (string, Option<string>)

  /** The value key has after the entries es are put in order over default d; null values are skipped. */
  function Overlay(es: seq<Entry>, key: string, d: Option<string>): Option<string>
  {
    if es == [] then d
    else
      var e := es[|es| - 1];
      if e.0 == key && e.1.Some? then e.1 else Overlay(es[..|es| - 1], key, d)
  }

  /** The second table is the first with the entries of es that have a value put in order. */
  ghost predicate Replayed(ks: Slots, vs: Slots, ks': Slots, vs': Slots, es: seq<Entry>, hash: Hash)
    requires 0 < |ks| == |vs| && 0 < |ks'| == |vs'|
  {
    forall y :: Lookup(ks', vs', y, hash) == Overlay(es, y, Lookup(ks, vs, y, hash))
  }

  /** Putting entry n (skipped when its value is null) extends the replay of the entries before it by one. */
  lemma ReplayStep(ks: Slots, vs: Slots, ks1: Slots, vs1: Slots, ks2: Slots, vs2: Slots, es: seq<Entry>, n: nat, hash: Hash)
    requires 0 < |ks| == |vs| && 0 < |ks1| == |vs1| && 0 < |ks2| == |vs2| && n < |es|
    requires Replayed(ks, vs, ks1, vs1, es[..n], hash)
    requires es[n].1.Some? ==> PutEffect(ks1, vs1, ks2, vs2, es[n].0, es[n].1, hash)
    requires es[n].1.None? ==> SameLookups(ks1, vs1, ks2, vs2, hash)
    ensures Replayed(ks, vs, ks2, vs2, es[..n + 1], hash)
  {
    assert es[..n + 1][..n] == es[..n];
  }

  /**
   * How putting the entries es can fail: a resize at the largest short
   * capacity, or an entry with a value for whose key keyPos finds no slot,
   * after the entries before it were put.
   */
  ghost predicate ReplayFailed(ks: Slots, vs: Slots, ks': Slots, vs': Slots, es: seq<Entry>, hash: Hash, capacity: int, f: Failure)
    requires 0 < |ks| == |vs| && 0 < |ks'| == |vs'|
  {
    match f
    case NegativeArraySize => capacity == MAX_CAPACITY
    case NoFreeSlot =>
      exists n :: 0 <= n < |es| && es[n].1.Some? && FindSlot(ks', es[n].0, hash).None?
                  && Replayed(ks, vs, ks', vs', es[..n], hash)
  }

  /** Entry n finding no slot after the entries before it were put is a NoFreeSlot failure of the replay. */
  lemma ReplayFailsAt(ks: Slots, vs: Slots, ks1: Slots, vs1: Slots, ks2: Slots, vs2: Slots, es: seq<Entry>, n: nat, hash: Hash, capacity: int)
    requires 0 < |ks| == |vs| && 0 < |ks1| == |vs1| && 0 < |ks2| == |vs2| && n < |es|
    requires Replayed(ks, vs, ks1, vs1, es[..n], hash) && SameLookups(ks1, vs1, ks2, vs2, hash)
    requires es[n].1.Some? && FindSlot(ks2, es[n].0, hash).None?
    ensures ReplayFailed(ks, vs, ks2, vs2, es, hash, capacity, NoFreeSlot)
  {
    assert Replayed(ks, vs, ks2, vs2, es[..n], hash);
  }

  // ---------------------------------------------------------------------
  // What the iterator yields
  // ---------------------------------------------------------------------

  /** Java's string conversion of a key: a null reference reads "null". */
  function KeyText(k: Option<string>): string
  {
    match k
    case None => "null"
    case Some(s) => s
  }

  /** The string "k=v". */
  function TagText(k: string, v: string): string
  {
    k + "=" + v
  }

  /** The wildcard string "k=*". */
  function WildText(k: string): string
  {
    k + "=*"
  }

  /** What the iterator yields for the slots from i on: for each slot with a value, "k=v" then "k=*". */
  function SlotTags(ks: Slots, vs: Slots, i: nat): seq<string>
    requires |ks| == |vs|
    decreases |vs| - i
  {
    if i >= |vs| then []
    else
      (if vs[i].Some? then [TagText(KeyText(ks[i]), vs[i].value), WildText(KeyText(ks[i]))] else [])
      + SlotTags(ks, vs, i + 1)
  }

  /**
   * What the iterator yields for the extra chain from entry n on: each
   * entry's "k=v" and "k=*", up to the first entry with a null value (the
   * empty entry that ends the chain, or one put with a null value).
   */
  function ChainTags(es: seq<Entry>, n: nat): seq<string>
    decreases |es| - n
  {
    if n >= |es| || es[n].1.None? then []
    else [TagText(es[n].0, es[n].1.value), WildText(es[n].0)] + ChainTags(es, n + 1)
  }

  /** Every entry from n on has a value. */
  predicate Valued(es: seq<Entry>, n: nat)
  {
    forall m :: n <= m < |es| ==> es[m].1.Some?
  }

  /**
   * A tag put while iterating is yielded after everything still to come
   * from the chain, unless an entry with a null value ended the chain first.
   */
  lemma {:induction false} ChainTagsAppend(es: seq<Entry>, n: nat, e: Entry)
    requires n <= |es|
    ensures ChainTags(es + [e], n)
         == ChainTags(es, n) + (if Valued(es, n) && e.1.Some? then [TagText(e.0, e.1.value), WildText(e.0)] else [])
    decreases |es| - n
  {
    if n < |es| {
      assert (es + [e])[n] == es[n];
      if es[n].1.Some? {
        ChainTagsAppend(es, n + 1, e);
        assert Valued(es, n) == Valued(es, n + 1);
      }
    } else {
      assert (es + [e])[n] == e;
      assert es + [e] == (es + [e])[..n + 1];
    }
  }

  /**
   * What an iterator still yields: the wildcard it owes, then the slots
   * from pos on, then the extra chain from entry n on.
   */
  function Pending(doWild: bool, wild: string, ks: Slots, vs: Slots, pos: nat, es: seq<Entry>, n: nat): seq<string>
    requires |ks| == |vs|
  {
    (if doWild then [WildText(wild)] else []) + SlotTags(ks, vs, pos) + ChainTags(es, n)
  }

  /** next in the slots: the first slot with a value yields its "k=v" and owes "k=*". */
  lemma PendingSlot(wild: string, ks: Slots, vs: Slots, pos: nat, i: nat, es: seq<Entry>, n: nat)
    requires |ks| == |vs| && pos <= i < |vs| && NoValues(vs, pos, i) && vs[i].Some?
    ensures Pending(false, wild, ks, vs, pos, es, n) != []
    ensures Pending(false, wild, ks, vs, pos, es, n)[0] == TagText(KeyText(ks[i]), vs[i].value)
    ensures Pending(false, wild, ks, vs, pos, es, n)[1..] == Pending(true, KeyText(ks[i]), ks, vs, i + 1, es, n)
  {
    SlotTagsFirst(ks, vs, pos, i);
  }

  /** next past the slots: the slots left yield nothing. */
  lemma PendingNoSlot(wild: string, ks: Slots, vs: Slots, pos: nat, es: seq<Entry>, n: nat)
    requires |ks| == |vs| && pos <= |vs| && NoValues(vs, pos, |vs|)
    ensures Pending(false, wild, ks, vs, pos, es, n) == Pending(false, wild, ks, vs, |vs|, es, n)
  {
    SlotTagsSkip(ks, vs, pos, |vs|);
  }

  /** The slots from i to just before s have no value, so the iterator skips them. */
  predicate NoValues(vs: Slots, i: nat, s: nat)
  {
    forall t :: i <= t < s && t < |vs| ==> vs[t].None?
  }

  /** Skipping slots without a value yields nothing. */
  lemma {:induction false} SlotTagsSkip(ks: Slots, vs: Slots, i: nat, s: nat)
    requires |ks| == |vs| && i <= s && NoValues(vs, i, s)
    ensures SlotTags(ks, vs, i) == SlotTags(ks, vs, s)
    decreases s - i
  {
    if i < s && i < |vs| {
      SlotTagsSkip(ks, vs, i + 1, s);
    } else if i < s {
      assert SlotTags(ks, vs, i) == [] && SlotTags(ks, vs, s) == [];
    }
  }

  /** The first slot with a value from i on yields the next two strings. */
  lemma SlotTagsFirst(ks: Slots, vs: Slots, i: nat, s: nat)
    requires |ks| == |vs| && i <= s < |vs| && NoValues(vs, i, s) && vs[s].Some?
    ensures SlotTags(ks, vs, i) == [TagText(KeyText(ks[s]), vs[s].value), WildText(KeyText(ks[s]))] + SlotTags(ks, vs, s + 1)
  {
    SlotTagsSkip(ks, vs, i, s);
  }

  /** Every slot with a value from i on contributes its "k=v" to what is yielded, "k=*" right after it. */
  lemma {:induction false} SlotTagsHas(ks: Slots, vs: Slots, i: nat, s: nat)
    requires |ks| == |vs| && i <= s < |vs| && vs[s].Some?
    ensures exists m :: 0 <= m < |SlotTags(ks, vs, i)| - 1
                     && SlotTags(ks, vs, i)[m] == TagText(KeyText(ks[s]), vs[s].value)
                     && SlotTags(ks, vs, i)[m + 1] == WildText(KeyText(ks[s]))
    decreases s - i
  {
    var here := if vs[i].Some? then [TagText(KeyText(ks[i]), vs[i].value), WildText(KeyText(ks[i]))] else [];
    assert SlotTags(ks, vs, i) == here + SlotTags(ks, vs, i + 1);
    if i < s {
      SlotTagsHas(ks, vs, i + 1, s);
      var m :| 0 <= m < |SlotTags(ks, vs, i + 1)| - 1
             && SlotTags(ks, vs, i + 1)[m] == TagText(KeyText(ks[s]), vs[s].value)
             && SlotTags(ks, vs, i + 1)[m + 1] == WildText(KeyText(ks[s]));
      assert SlotTags(ks, vs, i)[|here| + m] == SlotTags(ks, vs, i + 1)[m];
      assert SlotTags(ks, vs, i)[|here| + m + 1] == SlotTags(ks, vs, i + 1)[m + 1];
    } else {
      assert |SlotTags(ks, vs, i)| >= 2;
      assert SlotTags(ks, vs, i)[0] == TagText(KeyText(ks[s]), vs[s].value);
      assert SlotTags(ks, vs, i)[1] == WildText(KeyText(ks[s]));
    }
  }

  /** The iterator yields two strings for every slot with a value from i on. */
  lemma {:induction false} SlotTagsLength(ks: Slots, vs: Slots, i: nat)
    requires |ks| == |vs| && i <= |vs|
    ensures |SlotTags(ks, vs, i)| == 2 * (LiveCount(vs) - LiveCount(vs[..i]))
    decreases |vs| - i
  {
    if i < |vs| {
      SlotTagsLength(ks, vs, i + 1);
      assert vs[..i + 1][..i] == vs[..i];
    } else {
      assert vs[..i] == vs;
    }
  }

  // ---------------------------------------------------------------------
  // keyPos as written
  // ---------------------------------------------------------------------

  /**
   * The loop variable of keyPos as written, at its n-th test `i != k`
   * (n = 0 first): it starts at k + 1 and each turn first wraps it (when it
   * has reached capacity), examines that slot and then increments it.
   */
  function AsWrittenTest(home: int, capacity: int, n: nat): int
    decreases n, 1
  {
    if n == 0 then home + 1 else AsWrittenExamined(home, capacity, n - 1) + 1
  }

  /** The slot keyPos as written examines in its n-th turn. */
  function AsWrittenExamined(home: int, capacity: int, n: nat): int
    decreases n, 2
  {
    var i := AsWrittenTest(home, capacity, n);
    if i >= capacity then i - capacity else i
  }

  /** The first round of the as-written loop: turn n examines the slot keyPos's probe takes n-th. */
  lemma {:induction false} AsWrittenFirstRound(home: int, capacity: int, n: nat)
    requires 0 <= home < capacity && n < capacity
    ensures AsWrittenExamined(home, capacity, n) == ProbeSlot(home, n, capacity)
    ensures n > 0 ==> AsWrittenTest(home, capacity, n) == ProbeSlot(home, n - 1, capacity) + 1
  {
    if n > 0 {
      AsWrittenFirstRound(home, capacity, n - 1);
    }
  }

  /**
   * With home slot 1 or more the as-written loop examines the slots after
   * home in the order keyPos's probe does, and its test stops it after the
   * capacity - 1 of them.
   */
  lemma AsWrittenAgreesAwayFromZero(home: int, capacity: int, n: nat)
    requires 0 < home < capacity && n < capacity
    ensures n < capacity - 1 ==> AsWrittenTest(home, capacity, n) != home
    ensures n < capacity - 1 ==> AsWrittenExamined(home, capacity, n) == ProbeSlot(home, n, capacity)
    ensures AsWrittenTest(home, capacity, capacity - 1) == home
  {
    AsWrittenFirstRound(home, capacity, n);
    AsWrittenFirstRound(home, capacity, capacity - 1);
  }

  /** With home slot 0 the as-written loop variable stays between 1 and capacity at every test. */
  lemma {:induction false} AsWrittenTestRange(capacity: int, n: nat)
    requires capacity >= 2
    ensures 1 <= AsWrittenTest(0, capacity, n) <= capacity
  {
    if n > 0 {
      AsWrittenTestRange(capacity, n - 1);
    }
  }

  /**
   * With home slot 0 the as-written test `i != k` never fails: the loop
   * examines every slot, the home slot 0 included in turn capacity - 1,
   * over and over, and only a free or matching slot ends it.
   */
  lemma AsWrittenNeverExits(capacity: int, n: nat)
    requires capacity >= 2
    ensures AsWrittenTest(0, capacity, n) != 0
    ensures AsWrittenExamined(0, capacity, capacity - 1) == 0
  {
    AsWrittenTestRange(capacity, n);
    AsWrittenFirstRound(0, capacity, capacity - 1);
  }

  // ---------------------------------------------------------------------
  // The table
  // ---------------------------------------------------------------------

  /**
   * The ways put can fail: no slot left for the key (an assertion error,
   * or a NullPointerException when the missing index is unboxed), and a
   * resize past the largest short capacity (a NegativeArraySizeException).
   */
  datatype Failure = NoFreeSlot | NegativeArraySize

  /** The chain of ExtraEntry objects: its filled entries in order; the empty entry at its end is implicit. */
  class ExtraChain {
    var entries: seq<Entry>

    constructor ()
      ensures entries == []
    {
      entries := [];
    }

    /** put during iteration: fills the empty entry at the end and links a new empty one after it. */
    method Append(key: string, value: Option<string>)
      modifies this
      ensures entries == old(entries) + [(key, value)]
    {
      entries := entries + [(key, value)];
    }
  }

  /** System.arraycopy of a whole array into another of the same length. */
  method ArrayCopy(src: array<Option<string>>, dst: array<Option<string>>)
    requires src.Length == dst.Length && src != dst
    modifies dst
    ensures dst[..] == src[..]
  {
    for i := 0 to src.Length
      invariant dst[..i] == src[..i]
    {
      dst[i] := src[i];
    }
  }

  /**
   * A tag set: an open-addressed table of parallel key and value arrays,
   * and, while an iterator is out, the chain that collects the tags put
   * meanwhile.  The capacity is a short, so it is at most 2^14.
   */
  class Tags {
    var size: int16
    var capacity: int16
    var keys: array<Option<string>>
    var values: array<Option<string>>
    var extra: ExtraChain?
    const hash: Hash

    /** The table's invariant: sized arrays and a power-of-two capacity, every key findable, size counts the live slots at least. */
    ghost predicate Valid()
      reads this, keys, values
    {
      && keys != values
      && keys.Length == capacity as int && values.Length == capacity as int
      && PowerOfTwo(capacity as int) && INIT_SIZE <= capacity as int <= MAX_CAPACITY
      && ValidArrays(keys[..], values[..], hash)
      && LiveCount(values[..]) <= size as int <= capacity as int
    }

    /** The value get returns for key. */
    ghost function ValueOf(key: string): Option<string>
      requires Valid()
      reads this, keys, values
    {
      Lookup(keys[..], values[..], key, hash)
    }

    /** An empty tag set of capacity INIT_SIZE. */
    constructor (hash: Hash)
      ensures Valid() && extra == null && size == 0 && capacity as int == INIT_SIZE && this.hash == hash
      ensures fresh(keys) && fresh(values)
      ensures forall y :: ValueOf(y) == None
    {
      keys := new Option<string>[INIT_SIZE](_ => None);
      values := new Option<string>[INIT_SIZE](_ => None);
      capacity := INIT_SIZE as int16;
      size := 0;
      extra := null;
      this.hash := hash;
      new;
      assert keys[..] == Empty(INIT_SIZE) && values[..] == Empty(INIT_SIZE);
      EmptyTable(INIT_SIZE, hash);
    }

    /** keyPos: the slot of key, or the first free slot after its home; None when the probe finds neither. */
    method KeyPos(key: string) returns (r: Option<nat>)
      requires keys.Length == capacity as int > 0
      ensures r == FindSlot(keys[..], key, hash)
    {
      ghost var ks := keys[..];
      var k := Home(hash(key), capacity as int);
      var j := 0;
      while j < capacity as int - 1
        invariant 0 <= j <= capacity as int - 1
        invariant FindFrom(ks, key, k, j) == FindSlot(ks, key, hash)
      {
        var i := ProbeSlot(k, j, capacity as int);
        if keys[i].None? || keys[i] == Some(key) {
          return Some(i);
        }
        j := j + 1;
      }
      return None;
    }

    /** get: the value stored for key, or null. */
    method Get(key: string) returns (r: Option<string>)
      requires Valid()
      ensures r == ValueOf(key)
    {
      var ind := KeyPos(key);
      if ind.None? {
        return None;
      }
      return values[ind.value];
    }

    /**
     * put: while an iterator is out the tag joins the extra chain;
     * otherwise it goes into the table.  Returns the previous value (null
     * while iterating).
     */
    method Put(key: string, value: Option<string>) returns (r: Result<Option<string>, Failure>)
      requires Valid()
      modifies this, keys, values, extra
      ensures Valid() && extra == old(extra) && old(capacity) <= capacity && old(size) <= size
      ensures (keys == old(keys) && values == old(values)) || (fresh(keys) && fresh(values))
      ensures old(extra) != null ==>
                && r == Ok(None) && keys == old(keys) && values == old(values)
                && keys[..] == old(keys[..]) && values[..] == old(values[..])
                && size == old(size) && capacity == old(capacity)
                && extra.entries == old(extra.entries) + [(key, value)]
      ensures old(extra) == null && r.Ok? ==>
                && r.value == old(ValueOf(key))
                && PutEffect(old(keys[..]), old(values[..]), keys[..], values[..], key, value, hash)
                && LiveCount(keys[..]) <= old(LiveCount(keys[..])) + 1
      ensures old(extra) == null && r == Err(NoFreeSlot) ==>
                && FindSlot(keys[..], key, hash).None? && LiveCount(keys[..]) + 1 >= capacity as int
                && SameLookups(old(keys[..]), old(values[..]), keys[..], values[..], hash)
                && LiveCount(keys[..]) <= old(LiveCount(keys[..]))
      ensures old(extra) == null && old(size) as int + 1 < old(capacity) as int ==>
                && keys == old(keys) && values == old(values) && capacity == old(capacity)
                && r != Err(NegativeArraySize)
                && (r == Err(NoFreeSlot) <==> old(FindSlot(keys[..], key, hash)).None?)
      ensures old(extra) == null && old(size) as int + 1 >= old(capacity) as int ==> r != Err(NoFreeSlot)
      ensures r == Err(NegativeArraySize) ==> capacity as int == MAX_CAPACITY
      decreases MAX_CAPACITY - capacity as int, 4
    {
      if extra != null {
        extra.Append(key, value);
        return Ok(None);
      }
      r := PutTable(key, value);
    }

    /** put's table branch: makes room, then stores the value in the key's slot. */
    method PutTable(key: string, value: Option<string>) returns (r: Result<Option<string>, Failure>)
      requires Valid() && extra == null
      modifies this, keys, values
      ensures Valid() && extra == null && old(capacity) <= capacity && old(size) <= size
      ensures (keys == old(keys) && values == old(values)) || (fresh(keys) && fresh(values))
      ensures r.Ok? ==>
                && r.value == old(ValueOf(key))
                && PutEffect(old(keys[..]), old(values[..]), keys[..], values[..], key, value, hash)
                && LiveCount(keys[..]) <= old(LiveCount(keys[..])) + 1
      ensures r == Err(NoFreeSlot) ==>
                && FindSlot(keys[..], key, hash).None? && LiveCount(keys[..]) + 1 >= capacity as int
                && SameLookups(old(keys[..]), old(values[..]), keys[..], values[..], hash)
                && LiveCount(keys[..]) <= old(LiveCount(keys[..]))
      ensures old(size) as int + 1 < old(capacity) as int ==>
                && keys == old(keys) && values == old(values) && capacity == old(capacity)
                && r != Err(NegativeArraySize)
                && (r == Err(NoFreeSlot) <==> old(FindSlot(keys[..], key, hash)).None?)
      ensures old(size) as int + 1 >= old(capacity) as int ==> r != Err(NoFreeSlot)
      ensures r == Err(NegativeArraySize) ==> capacity as int == MAX_CAPACITY
      decreases MAX_CAPACITY - capacity as int, 3
    {
      ghost var oc, osize := capacity as int, size as int;
      var st := EnsureSpace();
      if st.Err? {
        return Err(st.error);
      }
      if osize + 1 >= oc {
        PowerOfTwoAbove(capacity as int, oc);
      }
      var ind := KeyPos(key);
      if ind.None? {
        NoSlotFull(keys[..], key, hash);
        return Err(NoFreeSlot);
      }
      var previous := Store(ind.value, key, value);
      return Ok(previous);
    }

    /** Writes key and value into slot p, the one keyPos found, and counts a slot that had no value. */
    method Store(p: nat, key: string, value: Option<string>) returns (previous: Option<string>)
      requires Valid() && size as int + 1 < capacity as int && FindSlot(keys[..], key, hash) == Some(p)
      modifies this`size, keys, values
      ensures Valid() && old(size) <= size
      ensures previous == old(ValueOf(key))
      ensures PutEffect(old(keys[..]), old(values[..]), keys[..], values[..], key, value, hash)
      ensures LiveCount(keys[..]) <= old(LiveCount(keys[..])) + 1
    {
      ghost var ks, vs := keys[..], values[..];
      keys[p] := Some(key);
      previous := values[p];
      if previous.None? {
        size := size + 1;
      }
      values[p] := value;
      assert keys[..] == ks[p := Some(key)] && values[..] == vs[p := value];
      PutArrays(ks, vs, key, value, p, hash);
      LiveCountUpdate(ks, p, Some(key));
    }

    /**
     * ensureSpace: while size + 1 reaches the capacity, doubles it (as a
     * short) and puts every old key with its value into new arrays.
     */
    method EnsureSpace() returns (r: Result<(), Failure>)
      requires Valid() && extra == null
      modifies this
      ensures Valid() && extra == null && old(capacity) <= capacity && old(size) <= size
      ensures (keys == old(keys) && values == old(values)) || (fresh(keys) && fresh(values))
      ensures r.Ok? ==> size as int + 1 < capacity as int && SameLookups(old(keys[..]), old(values[..]), keys[..], values[..], hash)
      ensures r.Ok? ==> LiveCount(keys[..]) <= old(LiveCount(keys[..]))
      ensures old(size) as int + 1 < old(capacity) as int ==>
                && r == Ok(()) && keys == old(keys) && values == old(values)
                && size == old(size) && capacity == old(capacity)
      ensures r.Err? ==> r == Err(NegativeArraySize) && capacity as int == MAX_CAPACITY
      decreases MAX_CAPACITY - capacity as int, 2
    {
      ghost var ks0, vs0 := keys[..], values[..];
      while size as int + 1 >= capacity as int
        invariant Valid() && extra == null && old(capacity) <= capacity && old(size) <= size
        invariant (keys == old(keys) && values == old(values)) || (fresh(keys) && fresh(values))
        invariant SameLookups(ks0, vs0, keys[..], values[..], hash)
        invariant LiveCount(keys[..]) <= LiveCount(ks0)
        invariant old(size) as int + 1 < old(capacity) as int ==>
                    keys == old(keys) && values == old(values) && size == old(size) && capacity == old(capacity)
        decreases MAX_CAPACITY - capacity as int
      {
        ghost var ks1, vs1 := keys[..], values[..];
        r := Grow();
        if r.Err? {
          return;
        }
        SameLookupsTrans(ks0, vs0, ks1, vs1, keys[..], values[..], hash);
      }
      return Ok(());
    }

    /** One turn of ensureSpace's loop: doubles the capacity as a short and puts the old contents into new arrays. */
    method Grow() returns (r: Result<(), Failure>)
      requires Valid() && extra == null
      modifies this
      ensures Valid() && extra == null && old(size) <= size && old(capacity) <= capacity
      ensures (keys == old(keys) && values == old(values)) || (fresh(keys) && fresh(values))
      ensures r.Ok? ==> old(capacity) < capacity && SameLookups(old(keys[..]), old(values[..]), keys[..], values[..], hash)
      ensures r.Ok? ==> LiveCount(keys[..]) <= old(LiveCount(keys[..]))
      ensures r.Err? ==> r == Err(NegativeArraySize) && capacity as int == MAX_CAPACITY
      decreases MAX_CAPACITY - capacity as int, 1
    {
      var ncap := ToShort(capacity as int * 2);
      if ncap < 0 {
        return Err(NegativeArraySize);
      }
      PowerOfTwoGap(capacity as int, 0x2000);
      assert ncap as int == capacity as int * 2 && PowerOfTwo(ncap as int / 2);
      var okey, oval := keys, values;
      keys := new Option<string>[ncap](_ => None);
      values := new Option<string>[ncap](_ => None);
      capacity := ncap;
      r := Rehash(okey, oval);
    }

    /** ensureSpace's copy loop: puts every key of the old arrays, with its value, into the new empty ones. */
    method Rehash(okey: array<Option<string>>, oval: array<Option<string>>) returns (r: Result<(), Failure>)
      requires extra == null && keys != values
      requires keys.Length == capacity as int && values.Length == capacity as int
      requires PowerOfTwo(capacity as int) && INIT_SIZE <= capacity as int <= MAX_CAPACITY
      requires 0 <= size as int <= capacity as int
      requires keys[..] == Empty(capacity as int) && values[..] == Empty(capacity as int)
      requires okey.Length == oval.Length < capacity as int && ValidArrays(okey[..], oval[..], hash)
      requires keys != okey && keys != oval && values != okey && values != oval
      modifies this, keys, values
      ensures Valid() && extra == null && old(capacity) <= capacity && old(size) <= size
      ensures (keys == old(keys) && values == old(values)) || (fresh(keys) && fresh(values))
      ensures r.Ok? ==> SameLookups(old(okey[..]), old(oval[..]), keys[..], values[..], hash)
      ensures r.Ok? ==> LiveCount(keys[..]) <= LiveCount(old(okey[..]))
      ensures r.Err? ==> r == Err(NegativeArraySize) && capacity as int == MAX_CAPACITY
      decreases MAX_CAPACITY - okey.Length, 0
    {
      ghost var oks, ovs := okey[..], oval[..];
      EmptyTable(capacity as int, hash);
      for i := 0 to okey.Length
        invariant Valid() && extra == null && old(capacity) <= capacity && old(size) <= size
        invariant (keys == old(keys) && values == old(values)) || (fresh(keys) && fresh(values))
        invariant keys != okey && keys != oval && values != okey && values != oval
        invariant okey[..] == oks && oval[..] == ovs
        invariant Rebuilt(keys[..], values[..], oks, ovs, i, hash)
        invariant LiveCount(keys[..]) <= LiveCount(oks[..i]) <= i
      {
        ghost var ks1, vs1 := keys[..], values[..];
        var k := okey[i];
        if k.Some? {
          var st := Put(k.value, oval[i]);
          if st.Err? {
            if st.error == NoFreeSlot {
              assert false;
            }
            return Err(st.error);
          }
        }
        RebuiltCount(ks1, keys[..], oks, i);
        RebuildStep(ks1, vs1, keys[..], values[..], oks, ovs, i, hash);
      }
      assert oks[..okey.Length] == oks;
      RebuildDone(keys[..], values[..], oks, ovs, hash);
      return Ok(());
    }

    /** remove: clears the key's value but leaves the key in its slot, so later keys stay findable. */
    method Remove(key: string) returns (r: Option<string>)
      requires Valid()
      modifies this`size, values
      ensures Valid() && keys[..] == old(keys[..])
      ensures r == old(ValueOf(key))
      ensures PutEffect(old(keys[..]), old(values[..]), keys[..], values[..], key, None, hash)
    {
      var k := KeyPos(key);
      if k.None? {
        return None;
      }
      var p := k.value;
      ghost var vs := values[..];
      r := values[p];
      values[p] := None;
      assert values[..] == vs[p := None];
      RemoveArrays(keys[..], vs, key, p, hash);
      if r.Some? {
        size := size - 1;
      }
    }

    /**
     * addExtraItems: ends the iteration mode and puts the tags collected
     * in the extra chain into the table, in order.
     */
    method AddExtraItems() returns (r: Result<(), Failure>)
      requires Valid()
      modifies this, keys, values
      ensures Valid() && extra == null && old(capacity) <= capacity
      ensures (keys == old(keys) && values == old(values)) || (fresh(keys) && fresh(values))
      ensures old(extra) == null ==>
                && r == Ok(()) && keys == old(keys) && values == old(values)
                && keys[..] == old(keys[..]) && values[..] == old(values[..])
                && size == old(size) && capacity == old(capacity)
      ensures old(extra) != null && r.Ok? ==>
                Replayed(old(keys[..]), old(values[..]), keys[..], values[..], old(extra.entries), hash)
      ensures r.Err? ==>
                old(extra) != null && ReplayFailed(old(keys[..]), old(values[..]), keys[..], values[..], old(extra.entries), hash, capacity as int, r.error)
    {
      if extra == null {
        return Ok(());
      }
      var es := extra.entries;
      extra := null;
      r := Replay(es);
    }

    /** addExtraItems' loop: puts the entries that have a value, in order. */
    method Replay(es: seq<Entry>) returns (r: Result<(), Failure>)
      requires Valid() && extra == null
      modifies this, keys, values
      ensures Valid() && extra == null && old(capacity) <= capacity
      ensures (keys == old(keys) && values == old(values)) || (fresh(keys) && fresh(values))
      ensures r.Ok? ==> Replayed(old(keys[..]), old(values[..]), keys[..], values[..], es, hash)
      ensures r.Err? ==> ReplayFailed(old(keys[..]), old(values[..]), keys[..], values[..], es, hash, capacity as int, r.error)
    {
      ghost var ks0, vs0 := keys[..], values[..];
      for n := 0 to |es|
        invariant Valid() && extra == null && old(capacity) <= capacity
        invariant (keys == old(keys) && values == old(values)) || (fresh(keys) && fresh(values))
        invariant Replayed(ks0, vs0, keys[..], values[..], es[..n], hash)
      {
        ghost var ks1, vs1 := keys[..], values[..];
        if es[n].1.Some? {
          var st := Put(es[n].0, es[n].1);
          if st == Err(NoFreeSlot) {
            ReplayFailsAt(ks0, vs0, ks1, vs1, keys[..], values[..], es, n, hash, capacity as int);
          }
          if st.Err? {
            return Err(st.error);
          }
        }
        ReplayStep(ks0, vs0, ks1, vs1, keys[..], values[..], es, n, hash);
      }
      assert es[..|es|] == es;
      return Ok(());
    }

    /** copy: flushes the extra chain, then a new tag set with copies of the arrays. */
    method Copy() returns (r: Result<Tags, Failure>)
      requires Valid()
      modifies this, keys, values
      ensures Valid() && extra == null
      ensures old(extra) == null ==> keys[..] == old(keys[..]) && values[..] == old(values[..])
      ensures old(extra) != null && r.Ok? ==>
                Replayed(old(keys[..]), old(values[..]), keys[..], values[..], old(extra.entries), hash)
      ensures old(extra) == null ==> r.Ok?
      ensures r.Err? ==>
                old(extra) != null && ReplayFailed(old(keys[..]), old(values[..]), keys[..], values[..], old(extra.entries), hash, capacity as int, r.error)
      ensures r.Ok? ==>
                && fresh(r.value) && fresh(r.value.keys) && fresh(r.value.values)
                && r.value.Valid() && r.value.extra == null && r.value.hash == hash
                && r.value.size == size && r.value.capacity == capacity
                && r.value.keys[..] == keys[..] && r.value.values[..] == values[..]
    {
      var st := AddExtraItems();
      if st.Err? {
        return Err(st.error);
      }
      var cp := Duplicate();
      return Ok(cp);
    }

    /** copy's second half: a new tag set with the same size and capacity and copies of the arrays. */
    method Duplicate() returns (cp: Tags)
      requires Valid()
      ensures fresh(cp) && fresh(cp.keys) && fresh(cp.values)
      ensures cp.Valid() && cp.extra == null && cp.hash == hash
      ensures cp.size == size && cp.capacity == capacity
      ensures cp.keys[..] == keys[..] && cp.values[..] == values[..]
    {
      cp := new Tags(hash);
      cp.size := size;
      cp.capacity := capacity;
      cp.keys := new Option<string>[keys.Length](_ => None);
      ArrayCopy(keys, cp.keys);
      cp.values := new Option<string>[values.Length](_ => None);
      ArrayCopy(values, cp.values);
    }

    /**
     * iterator: flushes the extra chain, starts a new one to collect the
     * tags put while iterating, and returns an iterator over the slots.
     */
    method Iterator() returns (r: Result<TagIterator, Failure>)
      requires Valid()
      modifies this, keys, values
      ensures Valid() && old(capacity) <= capacity
      ensures old(extra) == null ==> keys[..] == old(keys[..]) && values[..] == old(values[..])
      ensures old(extra) != null && r.Ok? ==>
                Replayed(old(keys[..]), old(values[..]), keys[..], values[..], old(extra.entries), hash)
      ensures old(extra) == null ==> r.Ok?
      ensures r.Err? ==>
                old(extra) != null && ReplayFailed(old(keys[..]), old(values[..]), keys[..], values[..], old(extra.entries), hash, capacity as int, r.error)
      ensures r.Ok? ==>
                && fresh(r.value) && fresh(extra) && r.value.tags == this && r.value.chain == extra
                && r.value.Valid() && r.value.Remaining() == SlotTags(keys[..], values[..], 0)
    {
      var st := AddExtraItems();
      if st.Err? {
        return Err(st.error);
      }
      var chain := new ExtraChain();
      extra := chain;
      var it := new TagIterator(this, chain);
      return Ok(it);
    }
  }

  /**
   * put on the table of PutFindsNoSlot, reached from an empty tag set by
   * putting and removing seven keys that all hash to slot 1: ensureSpace
   * leaves the table as it is and put fails for the eighth key.
   */
  method PutFailsWithoutSlot(t: Tags) returns (r: Result<Option<string>, Failure>)
    requires t.Valid() && t.extra == null && t.hash == OneHash && t.size == 0
    requires t.keys[..] == Letters(8) && t.values[..] == Empty(8)
    modifies t, t.keys, t.values
    ensures r == Err(NoFreeSlot)
  {
    PutFindsNoSlot();
    r := t.Put("zz", Some("v"));
  }

  /**
   * The iterator: every slot with a value yields "k=v" and then "k=*";
   * after the slots come the tags put while iterating, from the extra
   * chain; the last hasNext puts those into the table.
   */
  class TagIterator {
    const tags: Tags
    const chain: ExtraChain
    var pos: int
    var wild: string
    var doWild: bool
    var nextEntry: nat

    constructor (tags: Tags, chain: ExtraChain)
      requires tags.Valid()
      ensures this.tags == tags && this.chain == chain && pos == 0 && !doWild && nextEntry == 0
      ensures Valid() && Remaining() == SlotTags(tags.keys[..], tags.values[..], 0) + ChainTags(chain.entries, 0)
    {
      this.tags := tags;
      this.chain := chain;
      pos := 0;
      wild := "";
      doWild := false;
      nextEntry := 0;
    }

    ghost predicate Valid()
      reads this, tags, tags.keys, tags.values, chain
    {
      && tags.keys.Length == tags.capacity as int && tags.values.Length == tags.capacity as int
      && 0 <= pos <= tags.capacity as int && nextEntry <= |chain.entries|
    }

    /** The strings the iterator is still to yield. */
    ghost function Remaining(): seq<string>
      requires Valid()
      reads this, tags, tags.keys, tags.values, chain
    {
      Pending(doWild, wild, tags.keys[..], tags.values[..], pos, chain.entries, nextEntry)
    }

    /**
     * hasNext: whether anything remains; when nothing does, the tags put
     * while iterating are put into the table.
     */
    method HasNext() returns (r: Result<bool, Failure>)
      requires Valid() && tags.Valid()
      modifies this`pos, tags, tags.keys, tags.values
      ensures tags.Valid() && chain.entries == old(chain.entries)
      ensures r == Ok(true) ==>
                && Valid() && Remaining() == old(Remaining()) && old(Remaining()) != []
                && tags.extra == old(tags.extra) && tags.keys[..] == old(tags.keys[..]) && tags.values[..] == old(tags.values[..])
      ensures old(Remaining()) != [] ==> r == Ok(true)
      ensures r.Err? ==>
                && old(Remaining()) == [] && old(tags.extra) != null
                && ReplayFailed(old(tags.keys[..]), old(tags.values[..]), tags.keys[..], tags.values[..], old(tags.extra.entries), tags.hash, tags.capacity as int, r.error)
      ensures r == Ok(false) ==>
                && old(Remaining()) == [] && tags.extra == null
                && (old(tags.extra) != null ==>
                      Replayed(old(tags.keys[..]), old(tags.values[..]), tags.keys[..], tags.values[..], old(tags.extra.entries), tags.hash))
    {
      if doWild {
        return Ok(true);
      }
      var i := NextValued(tags.values, pos);
      SlotTagsSkip(tags.keys[..], tags.values[..], pos, i);
      if i < tags.capacity as int {
        SlotTagsFirst(tags.keys[..], tags.values[..], pos, i);
        pos := i;
        return Ok(true);
      }
      if nextEntry < |chain.entries| && chain.entries[nextEntry].1.Some? {
        return Ok(true);
      }
      var st := tags.AddExtraItems();
      if st.Err? {
        return Err(st.error);
      }
      return Ok(false);
    }

    /** next: the first remaining string, or null when nothing remains. */
    method Next() returns (r: Option<string>)
      requires Valid()
      modifies this
      ensures Valid()
      ensures old(Remaining()) == [] ==> r == None && Remaining() == []
      ensures old(Remaining()) != [] ==> r == Some(old(Remaining())[0]) && Remaining() == old(Remaining())[1..]
    {
      if doWild {
        doWild := false;
        return Some(WildText(wild));
      } else if pos < tags.capacity as int {
        r := NextSlot();
      } else {
        r := NextEntry();
      }
    }

    /** next in the slots: the next slot with a value, or else the chain. */
    method NextSlot() returns (r: Option<string>)
      requires Valid() && !doWild && pos < tags.capacity as int
      modifies this`pos, this`nextEntry, this`doWild, this`wild
      ensures Valid()
      ensures old(Remaining()) == [] ==> r == None && Remaining() == []
      ensures old(Remaining()) != [] ==> r == Some(old(Remaining())[0]) && Remaining() == old(Remaining())[1..]
    {
      var i := NextValued(tags.values, pos);
      if i < tags.capacity as int {
        PendingSlot(wild, tags.keys[..], tags.values[..], pos, i, chain.entries, nextEntry);
        doWild := true;
        wild := KeyText(tags.keys[i]);
        pos := i + 1;
        return Some(TagText(KeyText(tags.keys[i]), tags.values[i].value));
      }
      PendingNoSlot(wild, tags.keys[..], tags.values[..], pos, chain.entries, nextEntry);
      pos := tags.capacity as int;
      r := NextEntry();
    }

    /** next once the slots are done: the next tag put while iterating, or null at the chain's first null value. */
    method NextEntry() returns (r: Option<string>)
      requires Valid() && !doWild && pos == tags.capacity as int
      modifies this`nextEntry, this`doWild, this`wild
      ensures Valid()
      ensures old(Remaining()) == [] ==> r == None && Remaining() == []
      ensures old(Remaining()) != [] ==> r == Some(old(Remaining())[0]) && Remaining() == old(Remaining())[1..]
    {
      if nextEntry < |chain.entries| && chain.entries[nextEntry].1.Some? {
        var e := chain.entries[nextEntry];
        nextEntry := nextEntry + 1;
        doWild := true;
        wild := e.0;
        return Some(TagText(e.0, e.1.value));
      }
      return None;
    }
  }

  /** The iterator's scan: the first slot from `from` on that has a value, or the length when none has. */
  method NextValued(values: array<Option<string>>, from: int) returns (s: int)
    requires 0 <= from <= values.Length
    ensures from <= s <= values.Length && NoValues(values[..], from, s)
    ensures s < values.Length ==> values[s].Some?
  {
    s := from;
    while s < values.Length && values[s].None?
      invariant from <= s <= values.Length && NoValues(values[..], from, s)
    {
      s := s + 1;
    }
  }
}
