/** Clipboard synchronisation: when a host broadcasts what it finds on its clipboard, and why echoes die out. */
module Clipboard {
  import opened Bytes

  const ECHO_SUPPRESSION_WINDOW := 500

  type Digest = seq<U8>
  type Hash = string -> Digest

  const NO_DIGEST: Digest := Zeros(32)

  /** A host's clipboard (empty when it cannot be read) and the manager's three fields. */
  datatype Host = Host(content: string, lastHash: Digest, suppressedHash: Digest, suppressUntil: nat)

  function Start(content: string, now: nat): Host {
    Host(content, NO_DIGEST, NO_DIGEST, now)
  }

  /** A remote write of this text is too recent for its echo to count as new. */
  predicate Suppressed(h: Host, hash: Hash, text: string, now: nat) {
    now < h.suppressUntil && hash(text) == h.suppressedHash
  }

  /** One poll of the clipboard: the text to broadcast, if any. */
  function Read(h: Host, hash: Hash, now: nat): (Host, Option<string>) {
    if h.content == "" then (h, None)
    else
      var digest := hash(h.content);
      if Suppressed(h, hash, h.content, now) then (h, None)
      else if digest != h.lastHash then (h.(lastHash := digest), Some(h.content))
      else (h, None)
  }

  /** A text received from the mesh is written; `ok` tells whether the clipboard took it. */
  function Write(h: Host, hash: Hash, text: string, now: nat, ok: bool): Host {
    Host(if ok then text else h.content, hash(text), hash(text), now + ECHO_SUPPRESSION_WINDOW)
  }

  class SystemClipboard {
    var text: string
  }

  class ClipboardManager {
    const clipboard: SystemClipboard
    const hash: Hash
    var lastHash: Digest
    var suppressUntil: nat
    var suppressedHash: Digest

    ghost function Abstract(): Host
      reads this, clipboard
    {
      Host(clipboard.text, lastHash, suppressedHash, suppressUntil)
    }

    constructor (clipboard: SystemClipboard, hash: Hash, now: nat)
      ensures this.clipboard == clipboard && this.hash == hash && Abstract() == Start(clipboard.text, now)
    {
      this.clipboard, this.hash := clipboard, hash;
      lastHash, suppressedHash, suppressUntil := NO_DIGEST, NO_DIGEST, now;
    }

    method ReadClipboard(now: nat) returns (r: Option<string>)
      modifies this
      ensures (Abstract(), r) == Read(old(Abstract()), hash, now)
    {
      var content := clipboard.text;
      if content != "" {
        var digest := hash(content);
        if now < suppressUntil && digest == suppressedHash {
          return None;
        }
        if digest != lastHash {
          lastHash := digest;
          return Some(content);
        }
      }
      r := None;
    }

    /** `available` tells whether a clipboard server accepts the text. */
    method WriteClipboard(text: string, now: nat, available: bool) returns (ok: bool)
      modifies this, clipboard
      ensures ok == available && Abstract() == Write(old(Abstract()), hash, text, now, available)
    {
      var digest := hash(text);
      suppressedHash := digest;
      suppressUntil := now + ECHO_SUPPRESSION_WINDOW;
      lastHash := digest;
      if available {
        clipboard.text := text;
      }
      ok := available;
    }

    method IsSuppressed(text: string, now: nat) returns (r: bool)
      ensures r <==> Suppressed(Abstract(), hash, text, now)
      ensures r && text == clipboard.text ==> Read(Abstract(), hash, now) == (Abstract(), None)
    {
      r := now < suppressUntil && hash(text) == suppressedHash;
    }
  }

  // ---------------------------------------------------------------- many hosts

  datatype Event =
    | Copy(host: nat, text: string)
    | Poll(host: nat, now: nat)
    | Receive(host: nat, text: string, now: nat, ok: bool)

  /** All hosts, with the numbers of user copies, broadcasts and failed clipboard writes so far. */
  datatype Swarm = Swarm(hosts: seq<Host>, copies: nat, broadcasts: nat, failures: nat)

  function Begin(contents: seq<string>): (s: Swarm)
    ensures |s.hosts| == |contents|
  {
    Swarm(seq(|contents|, i requires 0 <= i < |contents| => Start(contents[i], 0)), 0, 0, 0)
  }

  function Broadcasts(s: Swarm, hash: Hash, ev: Event): bool {
    ev.Poll? && ev.host < |s.hosts| && Read(s.hosts[ev.host], hash, ev.now).1.Some?
  }

  function Step(s: Swarm, hash: Hash, ev: Event): (s': Swarm)
    ensures |s'.hosts| == |s.hosts|
  {
    if ev.host >= |s.hosts| then s
    else
      var h := s.hosts[ev.host];
      match ev
      case Copy(i, text) => s.(hosts := s.hosts[i := h.(content := text)], copies := s.copies + 1)
      case Poll(i, now) =>
        var (h', r) := Read(h, hash, now);
        s.(hosts := s.hosts[i := h'], broadcasts := s.broadcasts + if r.Some? then 1 else 0)
      case Receive(i, text, now, ok) =>
        s.(hosts := s.hosts[i := Write(h, hash, text, now, ok)], failures := s.failures + if ok then 0 else 1)
  }

  function Exec(contents: seq<string>, hash: Hash, evs: seq<Event>): (s: Swarm)
    ensures |s.hosts| == |contents|
  {
    if evs == [] then Begin(contents) else Step(Exec(contents, hash, evs[..|evs| - 1]), hash, evs[|evs| - 1])
  }

  /** The host holds a text it has not seen: some later poll may broadcast it. */
  predicate Pending(h: Host, hash: Hash) {
    h.content != "" && hash(h.content) != h.lastHash
  }

  function PendingCount(hosts: seq<Host>, hash: Hash): (n: nat)
    ensures n <= |hosts|
  {
    if hosts == [] then 0
    else PendingCount(hosts[..|hosts| - 1], hash) + if Pending(hosts[|hosts| - 1], hash) then 1 else 0
  }

  lemma {:induction false} PendingUpdate(hosts: seq<Host>, hash: Hash, i: nat, h: Host)
    requires i < |hosts|
    ensures PendingCount(hosts[i := h], hash)
         == PendingCount(hosts, hash) - (if Pending(hosts[i], hash) then 1 else 0) + if Pending(h, hash) then 1 else 0
  {
    var n := |hosts| - 1;
    if i < n {
      PendingUpdate(hosts[..n], hash, i, h);
      assert hosts[i := h][..n] == hosts[..n][i := h];
    } else {
      assert hosts[i := h][..n] == hosts[..n];
    }
  }

  /** Echo accounting over every run: each broadcast uses up a user copy, a host's initial content or a failed write. */
  lemma {:induction false} BroadcastsBounded(contents: seq<string>, hash: Hash, evs: seq<Event>)
    ensures var s := Exec(contents, hash, evs);
      s.broadcasts + PendingCount(s.hosts, hash) <= s.copies + |contents| + s.failures
  {
    if evs != [] {
      var n := |evs| - 1;
      BroadcastsBounded(contents, hash, evs[..n]);
      var s, ev := Exec(contents, hash, evs[..n]), evs[n];
      if ev.host < |s.hosts| {
        var h' := Step(s, hash, ev).hosts[ev.host];
        PendingUpdate(s.hosts, hash, ev.host, h');
        assert Step(s, hash, ev).hosts == s.hosts[ev.host := h'];
      }
    }
  }

  lemma {:induction false} NoFailures(contents: seq<string>, hash: Hash, evs: seq<Event>)
    requires forall ev <- evs :: ev.Receive? ==> ev.ok
    ensures Exec(contents, hash, evs).failures == 0
  {
    if evs != [] {
      var n := |evs| - 1;
      assert evs[n] in evs;
      NoFailures(contents, hash, evs[..n]);
    }
  }

  /** Clipboard sync cannot echo forever: in any run of any number of hosts whose clipboard writes succeed, broadcasts
      number at most the user copies plus the hosts. */
  lemma NoEndlessEcho(contents: seq<string>, hash: Hash, evs: seq<Event>)
    requires forall ev <- evs :: ev.Receive? ==> ev.ok
    ensures var s := Exec(contents, hash, evs); s.broadcasts <= s.copies + |contents|
  {
    BroadcastsBounded(contents, hash, evs);
    NoFailures(contents, hash, evs);
  }

  function After(s: Swarm, hash: Hash, evs: seq<Event>): (s': Swarm)
    ensures |s'.hosts| == |s.hosts|
  {
    if evs == [] then s else Step(After(s, hash, evs[..|evs| - 1]), hash, evs[|evs| - 1])
  }

  /** A host with nothing pending broadcasts nothing, at whatever times it is polled, until its user copies something or
      a write fails. */
  lemma {:induction false} StaysQuiet(s: Swarm, hash: Hash, evs: seq<Event>, i: nat)
    requires i < |s.hosts| && !Pending(s.hosts[i], hash)
    requires forall ev <- evs | ev.host == i :: ev.Poll? || (ev.Receive? && ev.ok)
    ensures forall j | 0 <= j < |evs| && evs[j].host == i :: !Broadcasts(After(s, hash, evs[..j]), hash, evs[j])
    ensures !Pending(After(s, hash, evs).hosts[i], hash)
    decreases |evs|
  {
    if evs != [] {
      var n := |evs| - 1;
      assert evs[n] in evs;
      StaysQuiet(s, hash, evs[..n], i);
      forall j | 0 <= j < |evs| && evs[j].host == i ensures !Broadcasts(After(s, hash, evs[..j]), hash, evs[j]) {
        if j < n {
          assert evs[..n][..j] == evs[..j] && evs[..n][j] == evs[j];
        }
      }
    }
  }

  /** What a write from the mesh may cause. If the clipboard took the text, or holds nothing, or holds a text with the
      same digest, the host broadcasts nothing, at whatever times it is polled and whatever else is successfully written
      to it, until its user copies something; otherwise the very next poll broadcasts its old content. */
  lemma RemoteWriteIsQuiet(s: Swarm, hash: Hash, i: nat, text: string, t: nat, ok: bool, evs: seq<Event>, now: nat)
    requires i < |s.hosts|
    requires forall ev <- evs | ev.host == i :: ev.Poll? || (ev.Receive? && ev.ok)
    ensures var written := Step(s, hash, Receive(i, text, t, ok));
      if ok || s.hosts[i].content == "" || hash(s.hosts[i].content) == hash(text)
      then forall j | 0 <= j < |evs| && evs[j].host == i ::
             !Broadcasts(After(written, hash, evs[..j]), hash, evs[j])
      else Broadcasts(written, hash, Poll(i, now))
  {
    var written := Step(s, hash, Receive(i, text, t, ok));
    if !Pending(written.hosts[i], hash) {
      StaysQuiet(written, hash, evs, i);
    }
  }

  /** A write from the mesh, whether the clipboard took it or not, suppresses its text and no other for exactly half a
      second, whatever happens in between short of another write to the same host. */
  lemma {:induction false} SuppressionWindow(s: Swarm, hash: Hash, i: nat, text: string, t: nat, ok: bool,
                                             evs: seq<Event>, other: string, now: nat)
    requires i < |s.hosts| && forall ev <- evs :: !(ev.Receive? && ev.host == i)
    ensures Suppressed(After(Step(s, hash, Receive(i, text, t, ok)), hash, evs).hosts[i], hash, other, now)
       <==> now < t + ECHO_SUPPRESSION_WINDOW && hash(other) == hash(text)
    decreases |evs|
  {
    if evs != [] {
      var n := |evs| - 1;
      assert evs[n] in evs;
      SuppressionWindow(s, hash, i, text, t, ok, evs[..n], other, now);
    }
  }

  // ---------------------------------------------------------------- what is broadcast

  /** The text last put on a host's clipboard, by its user or by a write that succeeded. */
  function Latest(contents: seq<string>, evs: seq<Event>, i: nat): string
    requires i < |contents|
  {
    if evs == [] then contents[i]
    else
      var n := |evs| - 1;
      match evs[n]
      case Copy(j, text) => if j == i then text else Latest(contents, evs[..n], i)
      case Receive(j, text, _, ok) => if j == i && ok then text else Latest(contents, evs[..n], i)
      case Poll(_, _) => Latest(contents, evs[..n], i)
  }

  /** The last text received for a host came less than half a second before `now`, with the digest of `text`. */
  predicate Echo(evs: seq<Event>, hash: Hash, i: nat, text: string, now: nat) {
    evs != [] &&
      var n := |evs| - 1;
      if evs[n].Receive? && evs[n].host == i
      then now < evs[n].now + ECHO_SUPPRESSION_WINDOW && hash(text) == hash(evs[n].text)
      else Echo(evs[..n], hash, i, text, now)
  }

  /** The digest of the last text that a host received or broadcast. */
  function LastKnown(contents: seq<string>, hash: Hash, evs: seq<Event>, i: nat): Digest
    requires i < |contents|
    decreases |evs|, 0
  {
    if evs == [] then NO_DIGEST
    else
      var n := |evs| - 1;
      match evs[n]
      case Copy(_, _) => LastKnown(contents, hash, evs[..n], i)
      case Receive(j, text, _, _) => if j == i then hash(text) else LastKnown(contents, hash, evs[..n], i)
      case Poll(j, now) =>
        if j == i && Due(contents, hash, evs[..n], i, now) then hash(Latest(contents, evs[..n], i))
        else LastKnown(contents, hash, evs[..n], i)
  }

  /** What the run so far asks of a poll: there is a text, it is no recent echo, and it is news. */
  predicate Due(contents: seq<string>, hash: Hash, evs: seq<Event>, i: nat, now: nat)
    requires i < |contents|
    decreases |evs|, 1
  {
    var text := Latest(contents, evs, i);
    text != "" && !Echo(evs, hash, i, text, now) && hash(text) != LastKnown(contents, hash, evs, i)
  }

  /** The manager's fields mean what the run says. */
  lemma {:induction false} FieldsFollowRun(contents: seq<string>, hash: Hash, evs: seq<Event>, i: nat)
    requires i < |contents|
    ensures var h := Exec(contents, hash, evs).hosts[i];
      && h.content == Latest(contents, evs, i) && h.lastHash == LastKnown(contents, hash, evs, i)
      && forall text, now :: Suppressed(h, hash, text, now) <==> Echo(evs, hash, i, text, now)
    decreases |evs|
  {
    if evs != [] {
      var n := |evs| - 1;
      FieldsFollowRun(contents, hash, evs[..n], i);
    }
  }

  /** Exactly which polls of any run broadcast, and what: a poll of host `i` broadcasts the text last copied there or
      successfully received there, unchanged, if and only if the text is not empty, is not the one received last within
      half a second, and differs in digest from the last text received or broadcast there. */
  lemma BroadcastExactly(contents: seq<string>, hash: Hash, evs: seq<Event>, i: nat, now: nat)
    requires i < |contents|
    ensures Read(Exec(contents, hash, evs).hosts[i], hash, now).1
         == if Due(contents, hash, evs, i, now) then Some(Latest(contents, evs, i)) else None
    ensures Exec(contents, hash, evs).hosts[i].content == Latest(contents, evs, i)
  {
    FieldsFollowRun(contents, hash, evs, i);
  }

  /** A failed write really does cost a broadcast: a host that had already broadcast its content does so once more. */
  lemma FailedWriteEchoes(hash: Hash, mine: string, theirs: string)
    requires mine != "" && hash(mine) != hash(theirs) && hash(mine) != NO_DIGEST
    ensures Exec([mine], hash, [Poll(0, 0), Receive(0, theirs, 1, false), Poll(0, 2)]).broadcasts == 2
  {
    var evs := [Poll(0, 0), Receive(0, theirs, 1, false), Poll(0, 2)];
    var s0 := Exec([mine], hash, []);
    assert evs[..2][..1] == [Poll(0, 0)] && evs[..2] == [Poll(0, 0), Receive(0, theirs, 1, false)];
    assert [Poll(0, 0)][..0] == [];
    var s1 := Exec([mine], hash, [Poll(0, 0)]);
    assert s1 == Step(s0, hash, Poll(0, 0)) && s1.broadcasts == 1;
    var s2 := Exec([mine], hash, evs[..2]);
    assert s2 == Step(s1, hash, Receive(0, theirs, 1, false));
    assert Exec([mine], hash, evs) == Step(s2, hash, Poll(0, 2));
  }
}
