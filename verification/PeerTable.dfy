/** The bounded table of recent mesh peers, against exact least-recently-contacted replacement. */
module PeerTable {
  import opened Bytes

  const CAPACITY := 4

  datatype PeerMetric = PeerMetric(nodeId: U32, lastRssi: int, lastLqi: U8, packetCount: U32)

  /** One received frame. */
  datatype Contact = Contact(nodeId: U32, rssi: int, lqi: U8)

  // ---------------------------------------------------------------- the table as a list, least recent first

  function IndexOf(l: seq<PeerMetric>, id: U32): (i: nat)
    ensures i <= |l|
    ensures i < |l| ==> l[i].nodeId == id
    ensures forall j | 0 <= j < i :: l[j].nodeId != id
  {
    if l == [] || l[0].nodeId == id then 0 else 1 + IndexOf(l[1..], id)
  }

  function Record(l: seq<PeerMetric>, c: Contact): (r: seq<PeerMetric>)
    requires |l| <= CAPACITY
    ensures |r| <= CAPACITY
  {
    if c.nodeId == 0 then l
    else
      var i := IndexOf(l, c.nodeId);
      if i < |l| then
        l[..i] + l[i + 1..] + [PeerMetric(c.nodeId, c.rssi, c.lqi, SaturatingAdd(l[i].packetCount, 1, U32_MAX))]
      else
        (if |l| == CAPACITY then l[1..] else l) + [PeerMetric(c.nodeId, c.rssi, c.lqi, 1)]
  }

  function After(history: seq<Contact>): (r: seq<PeerMetric>)
    ensures |r| <= CAPACITY
  {
    if history == [] then [] else Record(After(history[..|history| - 1]), history[|history| - 1])
  }

  function Find(l: seq<PeerMetric>, id: U32): Option<PeerMetric> {
    var i := IndexOf(l, id);
    if id == 0 || i == |l| then None else Some(l[i])
  }

  /** The firmware's table: a gap-free prefix of the four slots. */
  class Table {
    const peers: array<Option<PeerMetric>>
    ghost var contents: seq<PeerMetric>

    ghost predicate Valid()
      reads this, peers
    {
      Holds(contents)
    }

    /** The first `n` slots hold `l`, the others are empty. */
    ghost predicate Holds(l: seq<PeerMetric>)
      reads this, peers
    {
      && peers.Length == CAPACITY && |l| <= CAPACITY
      && (forall i | 0 <= i < |l| :: peers[i] == Some(l[i]))
      && (forall i | |l| <= i < CAPACITY :: peers[i] == None)
    }

    constructor ()
      ensures Valid() && fresh(peers) && contents == After([])
    {
      peers := new Option<PeerMetric>[CAPACITY](_ => None);
      contents := [];
    }

    method RecordPeer(nodeId: U32, rssi: int, lqi: U8)
      requires Valid()
      modifies this, peers
      ensures Valid() && contents == Record(old(contents), Contact(nodeId, rssi, lqi))
    {
      ghost var l := contents;
      ghost var l' := Record(l, Contact(nodeId, rssi, lqi));
      contents := l';
      if nodeId == 0 {
        return;
      }
      for i := 0 to CAPACITY
        invariant Holds(l) && contents == l'
        invariant forall j | 0 <= j < i && j < |l| :: l[j].nodeId != nodeId
      {
        if peers[i].Some? && peers[i].value.nodeId == nodeId {
          var peer := PeerMetric(nodeId, rssi, lqi, SaturatingAdd(peers[i].value.packetCount, 1, U32_MAX));
          Promote(i, peer, l);
          return;
        }
      }
      for i := 0 to CAPACITY
        invariant Holds(l) && contents == l' && i <= |l|
      {
        if peers[i].None? {
          peers[i] := Some(PeerMetric(nodeId, rssi, lqi, 1));
          return;
        }
      }
      for i := 0 to CAPACITY - 1
        invariant contents == l'
        invariant forall j | 0 <= j < i :: peers[j] == Some(l[j + 1])
        invariant forall j | i <= j < CAPACITY :: peers[j] == Some(l[j])
      {
        peers[i] := peers[i + 1];
      }
      peers[CAPACITY - 1] := Some(PeerMetric(nodeId, rssi, lqi, 1));
    }

    /** Moves the entry in slot `i` to the end of the active entries, as `peer`. */
    method Promote(i: nat, peer: PeerMetric, ghost l: seq<PeerMetric>)
      requires Holds(l) && i < |l|
      modifies peers
      ensures Holds(l[..i] + l[i + 1..] + [peer])
    {
      var last := i;
      for j := i + 1 to CAPACITY
        invariant last == Min(j, |l|) - 1
      {
        if peers[j].Some? {
          last := j;
        }
      }
      for j := i to last
        invariant forall k | 0 <= k < i :: peers[k] == Some(l[k])
        invariant forall k | i <= k < j :: peers[k] == Some(l[k + 1])
        invariant forall k | j <= k < |l| :: peers[k] == Some(l[k])
        invariant forall k | |l| <= k < CAPACITY :: peers[k] == None
      {
        peers[j] := peers[j + 1];
      }
      peers[last] := Some(peer);
    }

    method GetPeer(nodeId: U32) returns (r: Option<PeerMetric>)
      requires Valid()
      ensures r == Find(contents, nodeId)
    {
      if nodeId == 0 {
        return None;
      }
      for i := 0 to CAPACITY
        invariant forall j | 0 <= j < i && j < |contents| :: contents[j].nodeId != nodeId
      {
        if peers[i].Some? && peers[i].value.nodeId == nodeId {
          return peers[i];
        }
      }
      r := None;
    }

    method PrimaryPeer() returns (r: Option<PeerMetric>)
      requires Valid()
      ensures r == if contents == [] then None else Some(contents[|contents| - 1])
    {
      for i := CAPACITY downto 0
        invariant |contents| <= i
      {
        if peers[i].Some? {
          return peers[i];
        }
      }
      r := None;
    }

    method SecondaryPeer() returns (r: Option<PeerMetric>)
      requires Valid()
      ensures r == if |contents| < 2 then None else Some(contents[|contents| - 2])
    {
      var count := 0;
      for i := CAPACITY downto 0
        invariant count == if |contents| > i then |contents| - i else 0
        invariant count <= 1
      {
        if peers[i].Some? {
          if count == 1 {
            return peers[i];
          }
          count := count + 1;
        }
      }
      r := None;
    }
  }

  // ---------------------------------------------------------------- what the table should hold

  function Position(ids: seq<U32>, id: U32): (i: nat)
    ensures i <= |ids|
    ensures i < |ids| ==> ids[i] == id
    ensures forall j | 0 <= j < i :: ids[j] != id
  {
    if ids == [] || ids[0] == id then 0 else 1 + Position(ids[1..], id)
  }

  function Without(ids: seq<U32>, id: U32): (r: seq<U32>) {
    var i := Position(ids, id);
    if i == |ids| then ids else ids[..i] + ids[i + 1..]
  }

  /** All non-zero identifiers ever contacted, in order of last contact. */
  function Recency(history: seq<Contact>): (r: seq<U32>) {
    if history == [] then []
    else
      var before, c := Recency(history[..|history| - 1]), history[|history| - 1];
      if c.nodeId == 0 then before else Without(before, c.nodeId) + [c.nodeId]
  }

  function Suffix<T>(s: seq<T>, n: nat): seq<T> {
    if |s| <= n then s else s[|s| - n..]
  }

  /** The most recent contact with `id`. */
  function Latest(history: seq<Contact>, id: U32): Option<Contact> {
    if history == [] then None
    else
      var c := history[|history| - 1];
      if c.nodeId == id then Some(c) else Latest(history[..|history| - 1], id)
  }

  /** Contacts with `id` since it last entered the four most recent. */
  function Residency(history: seq<Contact>, id: U32): nat {
    if history == [] then 0
    else
      var before := history[..|history| - 1];
      if history[|history| - 1].nodeId != id then Residency(before, id)
      else if id in Suffix(Recency(before), CAPACITY) then Residency(before, id) + 1
      else 1
  }

  function Expected(history: seq<Contact>, id: U32): PeerMetric {
    var c := Latest(history, id).GetOr(Contact(id, 0, 0));
    PeerMetric(id, c.rssi, c.lqi, Min(Residency(history, id), U32_MAX))
  }

  /** One past the position of the last contact with `id`. */
  function LastContact(history: seq<Contact>, id: U32): nat {
    if history == [] then 0
    else if history[|history| - 1].nodeId == id then |history|
    else LastContact(history[..|history| - 1], id)
  }

  ghost predicate Distinct(ids: seq<U32>) {
    forall i, j | 0 <= i < j < |ids| :: ids[i] != ids[j]
  }

  lemma WithoutMembers(ids: seq<U32>, id: U32)
    requires Distinct(ids)
    ensures forall x :: x in Without(ids, id) <==> x in ids && x != id
    ensures Distinct(Without(ids, id))
  {
    var i, r := Position(ids, id), Without(ids, id);
    forall x ensures x in r <==> x in ids && x != id {
      if x in ids && x != id {
        var j :| 0 <= j < |ids| && ids[j] == x;
        assert r[if j < i then j else j - 1] == x;
      }
    }
  }

  lemma OrderWithout(ids: seq<U32>, id: U32, rank: U32 -> nat)
    requires forall i, j | 0 <= i < j < |ids| :: rank(ids[i]) < rank(ids[j])
    ensures var r := Without(ids, id); forall i, j | 0 <= i < j < |r| :: rank(r[i]) < rank(r[j])
  {
  }

  lemma {:induction false} LastContactBound(history: seq<Contact>)
    ensures forall id: U32 :: LastContact(history, id) <= |history|
  {
    if history != [] {
      LastContactBound(history[..|history| - 1]);
    }
  }

  lemma LastContactSnoc(before: seq<Contact>, c: Contact, id: U32)
    ensures LastContact(before + [c], id) == if id == c.nodeId then |before| + 1 else LastContact(before, id)
  {
    assert (before + [c])[..|before|] == before;
  }

  ghost predicate OrderedBy(r: seq<U32>, history: seq<Contact>) {
    forall i, j | 0 <= i < j < |r| :: LastContact(history, r[i]) < LastContact(history, r[j])
  }

  /** Moving the contact's identifier to the end keeps the list ordered by last contact. */
  lemma OrderSnoc(r: seq<U32>, before: seq<Contact>, c: Contact)
    requires Distinct(r) && OrderedBy(r, before)
    ensures OrderedBy(Without(r, c.nodeId) + [c.nodeId], before + [c])
  {
    var rest, rank := Without(r, c.nodeId), (id: U32) => LastContact(before, id);
    WithoutMembers(r, c.nodeId);
    assert forall i, j | 0 <= i < j < |r| :: rank(r[i]) < rank(r[j]);
    OrderWithout(r, c.nodeId, rank);
    LastContactBound(before);
    hide Without;
    hide LastContact;
    var r' := rest + [c.nodeId];
    forall i, j | 0 <= i < j < |r'| ensures LastContact(before + [c], r'[i]) < LastContact(before + [c], r'[j]) {
      assert r'[i] == rest[i] && rest[i] in rest;
      LastContactSnoc(before, c, r'[i]);
      LastContactSnoc(before, c, r'[j]);
      if j < |rest| {
        assert rest[j] in rest && rank(rest[i]) < rank(rest[j]);
      }
    }
  }

  /** The recency list holds every non-zero identifier ever contacted, once, ordered by last contact. */
  lemma {:induction false} RecencyMeaning(history: seq<Contact>)
    ensures var r := Recency(history);
      && Distinct(r) && OrderedBy(r, history)
      && (forall id: U32 :: id in r <==> id != 0 && LastContact(history, id) > 0)
  {
    if history != [] {
      var n := |history| - 1;
      var before, c := history[..n], history[n];
      assert before + [c] == history;
      RecencyMeaning(before);
      if c.nodeId != 0 {
        WithoutMembers(Recency(before), c.nodeId);
        OrderSnoc(Recency(before), before, c);
      } else {
        assert 0 !in Recency(before);
      }
      hide Without;
      hide OrderedBy;
      hide Position;
    }
  }

  /** Contact with one of the four most recent identifiers. */
  lemma RecencyHit(r: seq<U32>, i: nat)
    requires Distinct(r) && i < |Suffix(r, CAPACITY)|
    ensures var s := Suffix(r, CAPACITY);
      Suffix(Without(r, s[i]) + [s[i]], CAPACITY) == s[..i] + s[i + 1..] + [s[i]]
  {
    var s, n := Suffix(r, CAPACITY), |r| - |Suffix(r, CAPACITY)|;
    assert s[i] == r[n + i];
    assert Position(r, s[i]) == n + i;
  }

  lemma SuffixSnoc(r: seq<U32>, id: U32)
    ensures var s := Suffix(r, CAPACITY);
      Suffix(r + [id], CAPACITY) == (if |s| == CAPACITY then s[1..] else s) + [id]
  {
  }

  /** Removing an identifier that is not among the most recent ones leaves those alone. */
  lemma SuffixWithout(r: seq<U32>, id: U32)
    requires id !in Suffix(r, CAPACITY)
    ensures Suffix(Without(r, id), CAPACITY) == Suffix(r, CAPACITY)
  {
    var s, n, k := Suffix(r, CAPACITY), |r| - |Suffix(r, CAPACITY)|, Position(r, id);
    hide Position;
    assert forall i | 0 <= i < |s| :: s[i] == r[n + i];
    assert k < n || k == |r|;
  }

  /** Contact with any other identifier. */
  lemma RecencyMiss(r: seq<U32>, id: U32)
    requires id !in Suffix(r, CAPACITY)
    ensures var s := Suffix(r, CAPACITY);
      Suffix(Without(r, id) + [id], CAPACITY) == (if |s| == CAPACITY then s[1..] else s) + [id]
  {
    hide Suffix;
    hide Without;
    SuffixSnoc(Without(r, id), id);
    SuffixWithout(r, id);
  }

  predicate Agree(l: seq<PeerMetric>, history: seq<Contact>) {
    var ids := Suffix(Recency(history), CAPACITY);
    |l| == |ids| && forall i | 0 <= i < |l| :: l[i] == Expected(history, ids[i])
  }

  lemma ExpectedOther(before: seq<Contact>, c: Contact, id: U32)
    requires id != c.nodeId
    ensures Expected(before + [c], id) == Expected(before, id)
  {
    assert (before + [c])[..|before|] == before;
  }

  lemma ExpectedHit(before: seq<Contact>, c: Contact)
    requires c.nodeId in Suffix(Recency(before), CAPACITY)
    ensures Expected(before + [c], c.nodeId)
         == PeerMetric(c.nodeId, c.rssi, c.lqi,
              SaturatingAdd(Expected(before, c.nodeId).packetCount, 1, U32_MAX))
  {
    assert (before + [c])[..|before|] == before;
  }

  lemma ExpectedId(history: seq<Contact>, id: U32)
    ensures Expected(history, id).nodeId == id
  {
  }

  lemma RecencySnoc(before: seq<Contact>, c: Contact)
    requires c.nodeId != 0
    ensures Recency(before + [c]) == Without(Recency(before), c.nodeId) + [c.nodeId]
  {
    assert (before + [c])[..|before|] == before;
  }

  lemma SuffixDistinct(r: seq<U32>)
    requires Distinct(r)
    ensures Distinct(Suffix(r, CAPACITY))
  {
  }

  lemma LruHit(before: seq<Contact>, c: Contact, l: seq<PeerMetric>, ids: seq<U32>, i: nat)
    requires ids == Suffix(Recency(before), CAPACITY) && Distinct(Recency(before))
    requires |l| == |ids| && forall j | 0 <= j < |l| :: l[j] == Expected(before, ids[j])
    requires c.nodeId != 0 && i < |l| && i == IndexOf(l, c.nodeId)
    ensures Agree(Record(l, c), before + [c])
  {
    hide Expected;
    hide Recency;
    hide Without;
    ExpectedId(before, ids[i]);
    assert ids[i] == c.nodeId;
    RecencySnoc(before, c);
    ExpectedHit(before, c);
    RecencyHit(Recency(before), i);
    var l', ids' := Record(l, c), ids[..i] + ids[i + 1..] + [c.nodeId];
    SuffixDistinct(Recency(before));
    forall j | 0 <= j < |l'| ensures l'[j] == Expected(before + [c], ids'[j]) {
      if j < |l'| - 1 {
        assert ids'[j] == ids[if j < i then j else j + 1];
        ExpectedOther(before, c, ids'[j]);
      }
    }
  }

  lemma ExpectedMiss(before: seq<Contact>, c: Contact)
    requires c.nodeId !in Suffix(Recency(before), CAPACITY)
    ensures Expected(before + [c], c.nodeId) == PeerMetric(c.nodeId, c.rssi, c.lqi, 1)
  {
    assert (before + [c])[..|before|] == before;
  }

  lemma LruMiss(before: seq<Contact>, c: Contact, l: seq<PeerMetric>, ids: seq<U32>)
    requires ids == Suffix(Recency(before), CAPACITY) && Distinct(Recency(before))
    requires |l| == |ids| && forall j | 0 <= j < |l| :: l[j] == Expected(before, ids[j])
    requires c.nodeId != 0 && IndexOf(l, c.nodeId) == |l|
    ensures Agree(Record(l, c), before + [c])
  {
    hide Expected;
    hide Recency;
    hide Without;
    forall j | 0 <= j < |ids| ensures ids[j] != c.nodeId {
      ExpectedId(before, ids[j]);
      assert l[j].nodeId != c.nodeId;
    }
    RecencySnoc(before, c);
    ExpectedMiss(before, c);
    RecencyMiss(Recency(before), c.nodeId);
    var l', ids' := Record(l, c), (if |ids| == CAPACITY then ids[1..] else ids) + [c.nodeId];
    forall j | 0 <= j < |l'| ensures l'[j] == Expected(before + [c], ids'[j]) {
      if j < |l'| - 1 {
        ExpectedOther(before, c, ids'[j]);
      }
    }
  }

  lemma LruReserved(before: seq<Contact>, c: Contact)
    requires Agree(After(before), before) && c.nodeId == 0 && 0 !in Recency(before)
    ensures Agree(After(before), before + [c])
  {
    assert (before + [c])[..|before|] == before;
    var ids := Suffix(Recency(before), CAPACITY);
    forall j | 0 <= j < |ids| ensures Expected(before + [c], ids[j]) == Expected(before, ids[j]) {
      assert ids[j] in Recency(before);
      ExpectedOther(before, c, ids[j]);
    }
  }

  lemma LruStep(before: seq<Contact>, c: Contact)
    requires Agree(After(before), before)
    requires Distinct(Recency(before)) && 0 !in Recency(before)
    ensures Agree(Record(After(before), c), before + [c])
  {
    var l, ids := After(before), Suffix(Recency(before), CAPACITY);
    if c.nodeId == 0 {
      LruReserved(before, c);
    } else if IndexOf(l, c.nodeId) < |l| {
      LruHit(before, c, l, ids, IndexOf(l, c.nodeId));
    } else {
      LruMiss(before, c, l, ids);
    }
  }

  /** After any history the table holds the last up to four distinct non-zero identifiers in order of last contact,
      each with its latest signal readings and its saturating count since (re)insertion. */
  lemma {:induction false} TableIsExactLru(history: seq<Contact>)
    ensures Agree(After(history), history)
  {
    if history != [] {
      var n := |history| - 1;
      var before, c := history[..n], history[n];
      TableIsExactLru(before);
      RecencyMeaning(before);
      LruStep(before, c);
      assert before + [c] == history;
    }
  }

  /** Looking a peer up finds it, with its latest readings, exactly if it is among the four nodes contacted last. */
  lemma LookupMeaning(history: seq<Contact>, id: U32)
    ensures Find(After(history), id)
         == if id in Suffix(Recency(history), 4) then Some(Expected(history, id)) else None
  {
    TableIsExactLru(history);
    RecencyMeaning(history);
    var l, ids := After(history), Suffix(Recency(history), 4);
    hide After;
    hide Recency;
    forall j | 0 <= j < |l| ensures l[j].nodeId == ids[j] {
      ExpectedId(history, ids[j]);
    }
  }
}
