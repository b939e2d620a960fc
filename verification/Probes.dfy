/** The probe pool: a bounded in-place buffer of reusable load observations. */
module Probes {

  /** A backend replica: health and load signals, and the weighted round-robin state. */
  class Server {
    var isHealthy: bool
    var clientRif: int
    var latencyMs: int
    var weight: real
    var ewmaLatency: real
    var ewmaAlpha: real

    constructor (isHealthy: bool)
      ensures this.isHealthy == isHealthy && clientRif == 0 && latencyMs == 0
      ensures weight == 0.0 && ewmaLatency == 0.0 && ewmaAlpha == 0.0
    {
      this.isHealthy, clientRif, latencyMs := isHealthy, 0, 0;
      weight, ewmaLatency, ewmaAlpha := 0.0, 0.0, 0.0;
    }
  }

  /** One reusable observation. Only the use count ever changes. */
  class ProbeEntry {
    const server: Server
    const rif: int
    const latencyMs: int
    const timestamp: int
    const maxUses: int
    var useCount: int

    constructor (server: Server, rif: int, latencyMs: int, timestamp: int, maxUses: int)
      ensures this.server == server && this.rif == rif && this.latencyMs == latencyMs
      ensures this.timestamp == timestamp && this.maxUses == maxUses && useCount == 0
    {
      this.server, this.rif, this.latencyMs := server, rif, latencyMs;
      this.timestamp, this.maxUses, useCount := timestamp, maxUses, 0;
    }
  }

  // ---- Ranking entries -------------------------------------------------------------------

  /** A lexicographic rank. */
  datatype Key = Key(major: int, minor: int)

  predicate Less(a: Key, b: Key) {
    a.major < b.major || (a.major == b.major && a.minor < b.minor)
  }

  function Opposite(k: Key): Key { Key(-k.major, -k.minor) }

  /** The hot-cold rank at a RIF threshold: cold before hot, cold entries by latency, hot
      entries by RIF. */
  function HclRank(e: ProbeEntry, threshold: int): Key {
    if e.rif > threshold then Key(1, e.rif) else Key(0, e.latencyMs)
  }

  function EvictKey(threshold: int): ProbeEntry -> Key {
    (e: ProbeEntry) => Opposite(HclRank(e, threshold))
  }

  function AgeKey(): ProbeEntry -> Key {
    (e: ProbeEntry) => Key(0, e.timestamp)
  }

  /** Index i holds the leftmost minimum. */
  ghost predicate IsArgMin<T>(s: seq<T>, key: T -> Key, i: nat) {
    && i < |s|
    && (forall j | 0 <= j < i :: Less(key(s[i]), key(s[j])))
    && (forall j | 0 <= j < |s| :: !Less(key(s[j]), key(s[i])))
  }

  function ArgMin<T>(s: seq<T>, key: T -> Key): (i: nat)
    requires s != []
    ensures i < |s| && IsArgMin(s, key, i)
  {
    var last := |s| - 1;
    if last == 0 then 0
    else
      var m := ArgMin(s[..last], key);
      if Less(key(s[last]), key(s[m])) then last else m
  }

  lemma ArgMinUnique<T>(s: seq<T>, key: T -> Key, i: nat)
    requires IsArgMin(s, key, i)
    ensures i == ArgMin(s, key)
  {
    var m := ArgMin(s, key);
    assert !Less(key(s[m]), key(s[i])) && !Less(key(s[i]), key(s[m]));
  }

  /** One step of a left-to-right scan that keeps the best element so far. */
  lemma ScanStep<T>(s: seq<T>, key: T -> Key, i: nat)
    requires 0 < i < |s|
    ensures ArgMin(s[..i + 1], key)
         == var m := ArgMin(s[..i], key); if Less(key(s[i]), key(s[m])) then i else m
  {
    assert s[..i + 1][..i] == s[..i];
  }

  /** The oldest entry, in plain terms. */
  lemma OldestMeans(s: seq<ProbeEntry>, w: nat)
    ensures IsArgMin(s, AgeKey(), w)
       <==> && w < |s|
            && (forall j | 0 <= j < w :: s[w].timestamp < s[j].timestamp)
            && (forall j | 0 <= j < |s| :: s[w].timestamp <= s[j].timestamp)
  {
    if w < |s| {
      assert forall j | 0 <= j < |s| ::
        Less(AgeKey()(s[w]), AgeKey()(s[j])) <==> s[w].timestamp < s[j].timestamp;
      assert forall j | 0 <= j < |s| ::
        Less(AgeKey()(s[j]), AgeKey()(s[w])) <==> s[j].timestamp < s[w].timestamp;
    }
  }

  /** The eviction victim in plain terms: with a hot entry about, the first of the largest RIF,
      otherwise the first of the largest latency. */
  lemma WorstMeans(s: seq<ProbeEntry>, threshold: int, w: nat)
    ensures IsArgMin(s, EvictKey(threshold), w)
       <==> w < |s|
            && if s[w].rif > threshold then
                 && (forall j | 0 <= j < w :: s[j].rif < s[w].rif)
                 && (forall j | 0 <= j < |s| :: s[j].rif <= s[w].rif)
               else
                 && (forall j | 0 <= j < |s| :: s[j].rif <= threshold)
                 && (forall j | 0 <= j < w :: s[j].latencyMs < s[w].latencyMs)
                 && (forall j | 0 <= j < |s| :: s[j].latencyMs <= s[w].latencyMs)
  {
    if w < |s| {
      assert forall j | 0 <= j < |s| ::
        Less(EvictKey(threshold)(s[w]), EvictKey(threshold)(s[j])) <==> Displaces(s[w], s[j], threshold);
      assert forall j | 0 <= j < |s| ::
        Less(EvictKey(threshold)(s[j]), EvictKey(threshold)(s[w])) <==> Displaces(s[j], s[w], threshold);
    }
  }

  // ---- What each pool operation does to the stored sequence ---------------------------------

  function Without<T>(s: seq<T>, i: nat): (r: seq<T>)
    requires i < |s|
    ensures |r| == |s| - 1
  {
    s[..i] + s[i + 1..]
  }

  ghost predicate Distinct<T>(s: seq<T>) {
    forall i, j | 0 <= i < j < |s| :: s[i] != s[j]
  }

  lemma WithoutKeeps(s: seq<ProbeEntry>, i: nat)
    requires i < |s| && Distinct(s)
    ensures Distinct(Without(s, i)) && s[i] !in Without(s, i)
    ensures forall x | x in Without(s, i) :: x in s
  {}

  /** Deletes the first occurrence of e, if there is one. */
  function WithoutFirst(s: seq<ProbeEntry>, e: ProbeEntry): (r: seq<ProbeEntry>)
    ensures |r| == if e in s then |s| - 1 else |s|
  {
    if s == [] then []
    else if s[0] == e then s[1..]
    else [s[0]] + WithoutFirst(s[1..], e)
  }

  lemma {:induction false} WithoutFirstAt(s: seq<ProbeEntry>, e: ProbeEntry, i: nat)
    requires i < |s| && s[i] == e && e !in s[..i]
    ensures WithoutFirst(s, e) == Without(s, i)
  {
    if i > 0 {
      assert s[0] in s[..i];
      assert s[1..][..i - 1] == s[..i][1..];
      WithoutFirstAt(s[1..], e, i - 1);
      assert Without(s, i) == [s[0]] + Without(s[1..], i - 1);
    } else {
      assert Without(s, 0) == s[1..];
    }
  }

  lemma {:induction false} WithoutFirstMissing(s: seq<ProbeEntry>, e: ProbeEntry)
    requires e !in s
    ensures WithoutFirst(s, e) == s
  {
    if s != [] {
      WithoutFirstMissing(s[1..], e);
    }
  }

  function AfterAdd(s: seq<ProbeEntry>, maxSize: nat, e: ProbeEntry): seq<ProbeEntry> {
    (if |s| >= maxSize && s != [] then Without(s, ArgMin(s, AgeKey())) else s) + [e]
  }

  function AfterMark(s: seq<ProbeEntry>, e: ProbeEntry, useCount: int): seq<ProbeEntry> {
    if useCount >= e.maxUses then WithoutFirst(s, e) else s
  }

  function AfterRemoveWorst(s: seq<ProbeEntry>, threshold: int, removeOldest: bool): seq<ProbeEntry> {
    if s == [] then s
    else if removeOldest then Without(s, ArgMin(s, AgeKey()))
    else Without(s, ArgMin(s, EvictKey(threshold)))
  }

  /** Two successive ticks of the remover take two entries: of at least two stored ones, the
      oldest and the worst of the rest, or the other way round. */
  lemma TwoTicksTakeTwo(s: seq<ProbeEntry>, threshold1: int, threshold2: int, oldestFirst: bool)
    requires |s| >= 2
    ensures var r := AfterRemoveWorst(AfterRemoveWorst(s, threshold1, oldestFirst), threshold2, !oldestFirst);
      && |r| == |s| - 2
      && exists i, j :: (
           && IsArgMin(s, if oldestFirst then AgeKey() else EvictKey(threshold1), i)
           && IsArgMin(Without(s, i), if oldestFirst then EvictKey(threshold2) else AgeKey(), j)
           && r == Without(Without(s, i), j))
  {
    var i := ArgMin(s, if oldestFirst then AgeKey() else EvictKey(threshold1));
    var rest := Without(s, i);
    var j := ArgMin(rest, if oldestFirst then EvictKey(threshold2) else AgeKey());
    assert IsArgMin(rest, if oldestFirst then EvictKey(threshold2) else AgeKey(), j);
  }

  /** Adding to a full pool evicts the leftmost entry with the oldest dispatch time, never the
      newcomer. So it leaves nothing older than what it evicted exactly when the newcomer itself
      was not dispatched before the evicted entry; late answers break "keeps the newest". */
  lemma AddKeepsNewestIff(s: seq<ProbeEntry>, maxSize: nat, e: ProbeEntry)
    requires s != [] && |s| >= maxSize
    ensures var evicted := s[ArgMin(s, AgeKey())]; var r := AfterAdd(s, maxSize, e);
      && |r| == |s| && r[|r| - 1] == e
      && ((forall x | x in r :: x.timestamp >= evicted.timestamp) <==> e.timestamp >= evicted.timestamp)
  {
    hide ArgMin;
    var w := ArgMin(s, AgeKey());
    var r := AfterAdd(s, maxSize, e);
    assert IsArgMin(s, AgeKey(), w);
    forall i | 0 <= i < |r| - 1 ensures r[i].timestamp >= s[w].timestamp {
      var j := if i < w then i else i + 1;
      assert r[i] == s[j] && !Less(AgeKey()(s[j]), AgeKey()(s[w]));
    }
    assert r[|r| - 1] == e;
  }

  predicate IsFresh(e: ProbeEntry, now: int, ageLimit: int) {
    now - e.timestamp <= ageLimit
  }

  function FreshOf(s: seq<ProbeEntry>, now: int, ageLimit: int): (r: seq<ProbeEntry>)
    ensures |r| <= |s|
    ensures forall e | e in r :: e in s && IsFresh(e, now, ageLimit)
    ensures forall e | e in s && IsFresh(e, now, ageLimit) :: e in r
  {
    if s == [] then []
    else
      var last := |s| - 1;
      var front := FreshOf(s[..last], now, ageLimit);
      if IsFresh(s[last], now, ageLimit) then front + [s[last]] else front
  }

  lemma FreshStep(s: seq<ProbeEntry>, i: nat, now: int, ageLimit: int)
    requires i < |s|
    ensures var front := FreshOf(s[..i], now, ageLimit);
      FreshOf(s[..i + 1], now, ageLimit) == if IsFresh(s[i], now, ageLimit) then front + [s[i]] else front
  {
    assert s[..i + 1][..i] == s[..i];
  }

  /** RemoveWorst's test for replacing the worst entry so far: a hotter entry replaces a cold or
      less hot one, a slower cold entry replaces a cold one. */
  predicate Displaces(entry: ProbeEntry, worst: ProbeEntry, threshold: int) {
    if entry.rif > threshold then worst.rif <= threshold || entry.rif > worst.rif
    else worst.rif <= threshold && entry.latencyMs > worst.latencyMs
  }

  lemma WorstStep(s: seq<ProbeEntry>, threshold: int, i: nat)
    requires 0 < i < |s|
    ensures ArgMin(s[..i + 1], EvictKey(threshold))
         == var w := ArgMin(s[..i], EvictKey(threshold)); if Displaces(s[i], s[w], threshold) then i else w
  {
    ScanStep(s, EvictKey(threshold), i);
  }

  lemma VictimFirst(s: seq<ProbeEntry>, threshold: int)
    requires s != []
    ensures var w := ArgMin(s, EvictKey(threshold)); WithoutFirst(s, s[w]) == Without(s, w)
  {
    WithoutFirstAt(s, s[ArgMin(s, EvictKey(threshold))], ArgMin(s, EvictKey(threshold)));
  }

  lemma OldestStep(s: seq<ProbeEntry>, i: nat)
    requires 0 < i < |s|
    ensures ArgMin(s[..i + 1], AgeKey())
         == var m := ArgMin(s[..i], AgeKey()); if s[i].timestamp < s[m].timestamp then i else m
  {
    ScanStep(s, AgeKey(), i);
  }

  // ---- The pool itself ---------------------------------------------------------------------

  const SECOND := 1_000_000_000

  class ProbePool {
    // The slice's backing array; the stored entries are its first `count` cells.
    const slots: array<ProbeEntry?>
    const maxSize: nat
    const ageLimit: int
    var count: nat

    ghost predicate Valid()
      reads this, slots
    {
      && 0 < maxSize == slots.Length
      && 0 < ageLimit
      && count <= maxSize
      && forall i | 0 <= i < count :: slots[i] != null
    }

    function Contents(): (s: seq<ProbeEntry>)
      reads this, slots
      requires Valid()
      ensures |s| == count && forall i | 0 <= i < count :: s[i] == slots[i]
    {
      slots[..count]
    }

    constructor (maxSize: int, ageLimit: int)
      ensures Valid() && Contents() == [] && fresh(slots)
      ensures this.maxSize == if maxSize <= 0 then 16 else maxSize
      ensures this.ageLimit == if ageLimit <= 0 then 1_000_000_000 else ageLimit
    {
      var size := if maxSize <= 0 then 16 else maxSize;
      this.maxSize := size;
      this.ageLimit := if ageLimit <= 0 then SECOND else ageLimit;
      slots := new ProbeEntry?[size];
      count := 0;
    }

    /** Shifts the tail of the buffer left over cell `index`. */
    method DeleteAt(index: nat)
      requires Valid() && index < count
      modifies this`count, slots
      ensures Valid() && Contents() == Without(old(Contents()), index)
    {
      ghost var was := slots[..];
      var i := index;
      while i + 1 < count
        invariant index <= i < count && count == old(count)
        invariant forall j | 0 <= j < index || i <= j < count :: slots[j] == was[j]
        invariant forall j | index <= j < i :: slots[j] == was[j + 1]
      {
        slots[i] := slots[i + 1];
        i := i + 1;
      }
      count := count - 1;
    }

    /** The scan of removeOldestLocked. */
    method OldestIndex() returns (oldestIndex: nat)
      requires Valid() && Contents() != []
      ensures oldestIndex == ArgMin(Contents(), AgeKey())
    {
      hide ArgMin, IsArgMin;
      ghost var s := Contents();
      oldestIndex := 0;
      for entryIndex := 0 to count
        invariant oldestIndex == if entryIndex == 0 then 0 else ArgMin(s[..entryIndex], AgeKey())
      {
        if entryIndex > 0 {
          OldestStep(s, entryIndex);
        }
        if slots[entryIndex].timestamp < slots[oldestIndex].timestamp {
          oldestIndex := entryIndex;
        }
      }
      assert s[..count] == s;
    }

    method RemoveOldestLocked()
      requires Valid()
      modifies this`count, slots
      ensures Valid()
      ensures Contents() == var s := old(Contents()); if s == [] then s else Without(s, ArgMin(s, AgeKey()))
    {
      if count == 0 {
        return;
      }
      var oldestIndex := OldestIndex();
      DeleteAt(oldestIndex);
    }

    method RemoveEntryLocked(target: ProbeEntry)
      requires Valid()
      modifies this`count, slots
      ensures Valid() && Contents() == WithoutFirst(old(Contents()), target)
    {
      ghost var s := Contents();
      for entryIndex := 0 to count
        invariant target !in s[..entryIndex]
      {
        if slots[entryIndex] == target {
          WithoutFirstAt(s, target, entryIndex);
          DeleteAt(entryIndex);
          return;
        }
      }
      assert s[..count] == s;
      WithoutFirstMissing(s, target);
    }

    /** Stores a probe result, evicting the oldest entry first when the pool is full. The
        append always fits in the original backing array. */
    method Add(e: ProbeEntry)
      requires Valid()
      modifies this`count, slots
      ensures Valid() && Contents() == AfterAdd(old(Contents()), maxSize, e)
      ensures |old(Contents())| < maxSize ==> Contents() == old(Contents()) + [e]
      ensures |old(Contents())| == maxSize ==> exists w ::
        IsArgMin(old(Contents()), AgeKey(), w) && Contents() == Without(old(Contents()), w) + [e]
    {
      ghost var s := Contents();
      assert count == maxSize ==> IsArgMin(s, AgeKey(), ArgMin(s, AgeKey()));
      if count >= maxSize {
        RemoveOldestLocked();
      }
      slots[count] := e;
      count := count + 1;
    }

    method Fresh(now: int) returns (freshEntries: seq<ProbeEntry>)
      requires Valid()
      ensures freshEntries == FreshOf(Contents(), now, ageLimit)
      ensures forall e :: e in freshEntries <==> e in Contents() && now - e.timestamp <= ageLimit
    {
      freshEntries := [];
      ghost var s := Contents();
      for i := 0 to count
        modifies {}
        invariant freshEntries == FreshOf(s[..i], now, ageLimit)
      {
        FreshStep(s, i, now, ageLimit);
        var entry: ProbeEntry := slots[i];
        if now - entry.timestamp <= ageLimit {
          freshEntries := freshEntries + [entry];
        }
      }
      assert s[..count] == s;
    }

    /** Consumes one use of e, which another thread may already have evicted. */
    method MarkUsed(e: ProbeEntry)
      requires Valid()
      modifies this`count, slots, e`useCount
      ensures Valid() && e.useCount == old(e.useCount) + 1
      ensures Contents() == AfterMark(old(Contents()), e, e.useCount)
      ensures e.useCount < e.maxUses ==> Contents() == old(Contents())
      ensures e.useCount >= e.maxUses ==> Contents() == WithoutFirst(old(Contents()), e)
    {
      e.useCount := e.useCount + 1;
      if e.useCount >= e.maxUses {
        RemoveEntryLocked(e);
      }
    }

    /** The scan of RemoveWorst in load mode. */
    method WorstEntry(rifThreshold: int) returns (worstEntry: ProbeEntry)
      requires Valid() && Contents() != []
      ensures worstEntry == Contents()[ArgMin(Contents(), EvictKey(rifThreshold))]
    {
      hide ArgMin, IsArgMin;
      ghost var s := Contents();
      worstEntry := slots[0];
      for i := 1 to count
        invariant worstEntry == s[ArgMin(s[..i], EvictKey(rifThreshold))]
      {
        WorstStep(s, rifThreshold, i);
        var entry: ProbeEntry := slots[i];
        if entry.rif > rifThreshold {
          if worstEntry.rif <= rifThreshold || entry.rif > worstEntry.rif {
            worstEntry := entry;
          }
        } else if worstEntry.rif <= rifThreshold && entry.latencyMs > worstEntry.latencyMs {
          worstEntry := entry;
        }
      }
      assert s[..count] == s;
    }

    method RemoveWorst(rifThreshold: int, removeOldest: bool)
      requires Valid()
      modifies this`count, slots
      ensures Valid() && Contents() == AfterRemoveWorst(old(Contents()), rifThreshold, removeOldest)
      ensures |Contents()| == if old(Contents()) == [] then 0 else |old(Contents())| - 1
      ensures old(Contents()) != [] && removeOldest ==> exists w ::
        IsArgMin(old(Contents()), AgeKey(), w) && Contents() == Without(old(Contents()), w)
      ensures old(Contents()) != [] && !removeOldest ==> exists w ::
        IsArgMin(old(Contents()), EvictKey(rifThreshold), w) && Contents() == Without(old(Contents()), w)
    {
      if count == 0 {
        return;
      }
      if removeOldest {
        RemoveOldestLocked();
        return;
      }
      var worstEntry := WorstEntry(rifThreshold);
      VictimFirst(Contents(), rifThreshold);
      RemoveEntryLocked(worstEntry);
    }
  }
}
