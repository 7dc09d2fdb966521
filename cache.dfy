/** The viewer's bounded tile cache (public/app.js): a Map from cache key to
    a record, and the batch eviction of the least recently used records. */
module TileCache {

  /** A cache record. `id` stands for the identity of the JavaScript object:
      every record `getRec` creates gets a new one, so a callback holding an
      evicted record can be told apart from the record now under its key.
      `ok` also stands for `img` being set: the two are always written
      together. `err` is `err === "load error"`. */
  datatype Rec = Rec(id: nat, ok: bool, pending: bool, err: bool, lastUse: nat)

  /** `Math.ceil(MAX_CACHE * 0.2)`: the number of records one eviction
      removes. For every capacity whose fifth is an integer, the floating
      product rounds to that integer, so this is the ceiling of a fifth. */
  function EvictCount(maxCache: nat): (n: nat)
    ensures 5 * n >= maxCache && 5 * n < maxCache + 5
  {
    (maxCache + 4) / 5
  }

  /** No two records carry the same use stamp. */
  predicate LastUseDistinct(c: map<string, Rec>) {
    forall k1, k2 | k1 in c && k2 in c && k1 != k2 :: c[k1].lastUse != c[k2].lastUse
  }

  /** `k` holds the smallest use stamp of the cache. */
  predicate IsLeastUsed(c: map<string, Rec>, k: string) {
    k in c && forall k' | k' in c :: c[k].lastUse <= c[k'].lastUse
  }

  /** Every non-empty cache has a least recently used record. */
  lemma {:induction false} LeastUsedExists(c: map<string, Rec>)
    requires |c| > 0
    ensures exists k :: IsLeastUsed(c, k)
    decreases |c|
  {
    var k0 :| k0 in c;
    var rest := c - {k0};
    if |rest| == 0 {
      assert c.Keys == {k0};
      assert IsLeastUsed(c, k0);
    } else {
      LeastUsedExists(rest);
      var k1 :| IsLeastUsed(rest, k1);
      var best := if c[k0].lastUse <= c[k1].lastUse then k0 else k1;
      forall k' | k' in c ensures c[best].lastUse <= c[k'].lastUse {
        if k' != k0 {
          assert k' in rest;
        }
      }
      assert IsLeastUsed(c, best);
    }
  }

  /** With distinct stamps the least recently used record is unique. */
  lemma LeastUsedUnique(c: map<string, Rec>, k1: string, k2: string)
    requires LastUseDistinct(c) && IsLeastUsed(c, k1) && IsLeastUsed(c, k2)
    ensures k1 == k2
  {
  }

  ghost function LeastUsed(c: map<string, Rec>): (k: string)
    requires |c| > 0
    ensures IsLeastUsed(c, k)
  {
    LeastUsedExists(c);
    var k :| IsLeastUsed(c, k); k
  }

  /** The cache after deleting the `n` least recently used records (all of
      them when there are fewer): what sorting the entries by `lastUse` and
      deleting the first `n` does when the stamps are distinct. */
  ghost function Evict(c: map<string, Rec>, n: nat): (e: map<string, Rec>)
    decreases n
  {
    if n == 0 || |c| == 0 then c else Evict(c - {LeastUsed(c)}, n - 1)
  }

  /** Eviction only deletes: what it keeps is unchanged, and it deletes
      min(n, |c|) records. */
  lemma {:induction false} EvictKeeps(c: map<string, Rec>, n: nat)
    ensures Evict(c, n).Keys <= c.Keys
    ensures forall k | k in Evict(c, n) :: Evict(c, n)[k] == c[k]
    ensures |Evict(c, n)| == if n <= |c| then |c| - n else 0
    decreases n
  {
    if n != 0 && |c| != 0 {
      EvictKeeps(c - {LeastUsed(c)}, n - 1);
    }
  }

  /** What an eviction keeps is a record of the cache, unchanged. */
  lemma EvictSubmap(c: map<string, Rec>, n: nat)
    ensures forall k | k in Evict(c, n) :: k in c && Evict(c, n)[k] == c[k]
  {
    EvictKeeps(c, n);
  }

  /** Every record of c that e dropped was used no later than every record
      e kept. */
  predicate DropsLeastUsed(c: map<string, Rec>, e: map<string, Rec>) {
    forall d, k | d in c && k in c && d !in e && k in e :: c[d].lastUse <= c[k].lastUse
  }

  /** Every deleted record was used no later than every kept one. */
  lemma {:induction false} EvictDropsLeastUsed(c: map<string, Rec>, n: nat)
    ensures DropsLeastUsed(c, Evict(c, n))
    decreases n
  {
    if n != 0 && |c| != 0 {
      var m := LeastUsed(c);
      var rest := c - {m};
      var e := Evict(rest, n - 1);
      EvictDropsLeastUsed(rest, n - 1);
      AbsentStaysAbsent(rest, m, n - 1);
      DropsLeastFirst(c, m, rest, e);
      assert Evict(c, n) == e;
    }
  }

  /** If the records kept from c without its least used one are used no
      earlier than the ones dropped, the same holds over all of c. */
  lemma DropsLeastFirst(c: map<string, Rec>, m: string, rest: map<string, Rec>, e: map<string, Rec>)
    requires IsLeastUsed(c, m) && rest == c - {m} && m !in e
    requires DropsLeastUsed(rest, e)
    ensures DropsLeastUsed(c, e)
  {
    forall d, k | d in c && k in c && d !in e && k in e
      ensures c[d].lastUse <= c[k].lastUse
    {
      if d != m {
        assert d in rest && k in rest;
        assert rest[d].lastUse <= rest[k].lastUse;
      }
    }
  }

  /** Deleting one more record after n is deleting n + 1. */
  lemma {:induction false} EvictStep(c: map<string, Rec>, n: nat)
    requires n > 0 && |c| > 0
    ensures Evict(c, n) == Evict(c - {LeastUsed(c)}, n - 1)
  {
  }

  /** Deleting the least used record `k` is the first step of evicting n
      records, and keeps the stamps distinct. */
  lemma EvictLeastUsed(c: map<string, Rec>, k: string, n: nat)
    requires LastUseDistinct(c) && IsLeastUsed(c, k) && n > 0
    ensures Evict(c - {k}, n - 1) == Evict(c, n)
    ensures LastUseDistinct(c - {k})
  {
    LeastUsedUnique(c, k, LeastUsed(c));
    EvictStep(c, n);
  }

  /** A record stamped below every other is the least recently used one. */
  lemma UnderusedIsLeast(c: map<string, Rec>, key: string, r: Rec)
    requires key !in c
    requires forall k | k in c :: r.lastUse < c[k].lastUse
    ensures LeastUsed(c[key := r]) == key
  {
    var m := LeastUsed(c[key := r]);
    if m != key {
      assert c[key := r][m].lastUse <= c[key := r][key].lastUse;
    }
  }

  /** When the record under `key` is the least used, evicting n records is
      deleting it and then n - 1 of the others. */
  lemma {:induction false} EvictLeastFirst(c: map<string, Rec>, key: string, r: Rec, n: nat)
    requires key !in c && n > 0
    requires LeastUsed(c[key := r]) == key
    ensures Evict(c[key := r], n) == Evict(c, n - 1)
  {
    assert c[key := r] - {key} == c;
    EvictStep(c[key := r], n);
  }

  /** A key that was not cached is not cached after an eviction. */
  lemma AbsentStaysAbsent(c: map<string, Rec>, key: string, n: nat)
    requires key !in c
    ensures key !in Evict(c, n)
  {
    EvictKeeps(c, n);
  }

  /** A record stamped below every other is the first to go: evicting n
      records from c plus it is evicting n - 1 records from c, and it is
      not kept. */
  lemma {:induction false} EvictUnderused(c: map<string, Rec>, key: string, r: Rec, n: nat)
    requires key !in c && n > 0
    requires forall k | k in c :: r.lastUse < c[k].lastUse
    ensures Evict(c[key := r], n) == Evict(c, n - 1)
    ensures key !in Evict(c[key := r], n)
  {
    UnderusedIsLeast(c, key, r);
    EvictLeastFirst(c, key, r, n);
    AbsentStaysAbsent(c, key, n - 1);
  }
}
