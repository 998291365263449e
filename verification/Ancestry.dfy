// The bounded parent walk. The agent implements it three times over different
// lookups (/proc, the BPF map with a /proc fallback, the kernel cache); all
// three are proved equal to Walk, and Walk to be the longest parent path.

module Ancestry {
  import opened Prelude

  datatype ProcInfo = ProcInfo(
    pid: int, ppid: int, uid: nat, euid: nat, sid: int,
    tty: string, comm: string, exe: string, cmdline: string,
    startTicks: nat, startTimeNs: nat)

  datatype Chain = Chain(entries: seq<ProcInfo>, truncated: bool)

  const MAX_DEPTH: nat := 16         // IG_PA_MAX_DEPTH and IG_LKM_CHAIN_MAX

  // What a lookup of a pid finds at each step of the walk: /proc and the BPF map
  // may change while the walk is under way.
  type Source = (nat, int) -> Option<ProcInfo>

  ghost predicate WellKeyed(src: Source) {
    forall i, p :: src(i, p).Some? ==> src(i, p).value.pid == p
  }

  // init, kthreadd, or a process that is its own parent
  predicate Terminal(e: ProcInfo) {
    e.ppid <= 1 || e.ppid == e.pid
  }

  function Walk(src: Source, cur: int, i: nat, max: nat): Chain
    requires i < max
    decreases max - i
  {
    match src(i, cur)
    case None => Chain([], true)
    case Some(e) =>
      if e.ppid <= 1 || e.ppid == cur then Chain([e], false)
      else if i + 1 == max then Chain([e], true)
      else
        var rest := Walk(src, e.ppid, i + 1, max);
        Chain([e] + rest.entries, rest.truncated)
  }

  // ----- what the walk returns ---------------------------------------------------

  // es is what the lookups give along the parent path from pid, step i on;
  // only its last entry may be a terminal one.
  ghost predicate IsPath(src: Source, pid: int, i: nat, es: seq<ProcInfo>)
    decreases |es|
  {
    es != [] ==>
      && src(i, pid) == Some(es[0])
      && (|es| > 1 ==> !Terminal(es[0]))
      && IsPath(src, es[0].ppid, i + 1, es[1..])
  }

  lemma {:induction false} PathIsWalkPrefix(src: Source, pid: int, i: nat, max: nat, es: seq<ProcInfo>)
    requires WellKeyed(src) && i < max && IsPath(src, pid, i, es) && |es| <= max - i
    ensures es <= Walk(src, pid, i, max).entries
    decreases |es|
  {
    if |es| > 1 {
      PathIsWalkPrefix(src, es[0].ppid, i + 1, max, es[1..]);
      assert es == [es[0]] + es[1..];
    }
  }

  // The walk is the longest parent path of at most `max` entries from the given
  // pid: it is such a path, and PathIsWalkPrefix says every other one is a
  // prefix of it. It is marked truncated unless its last entry is terminal.
  lemma {:induction false} WalkIsPath(src: Source, pid: int, i: nat, max: nat)
    requires WellKeyed(src) && i < max
    ensures var w := Walk(src, pid, i, max);
      && |w.entries| <= max - i
      && IsPath(src, pid, i, w.entries)
      && (w.truncated <==> w.entries == [] || !Terminal(w.entries[|w.entries| - 1]))
    decreases max - i
  {
    if src(i, pid).Some? {
      var e := src(i, pid).value;
      if !Terminal(e) && i + 1 < max {
        WalkIsPath(src, e.ppid, i + 1, max);
        assert Walk(src, pid, i, max).entries[1..] == Walk(src, e.ppid, i + 1, max).entries;
      } else {
        assert [e][1..] == [];
      }
    }
  }

  lemma WalkIsLongestPath(src: Source, pid: int, max: nat)
    requires WellKeyed(src) && 0 < max
    ensures var w := Walk(src, pid, 0, max).entries;
      && |w| <= max && IsPath(src, pid, 0, w)
      && forall es :: IsPath(src, pid, 0, es) && |es| <= max ==> es <= w
  {
    WalkIsPath(src, pid, 0, max);
    forall es | IsPath(src, pid, 0, es) && |es| <= max ensures es <= Walk(src, pid, 0, max).entries {
      PathIsWalkPrefix(src, pid, 0, max, es);
    }
  }

  // Each entry's parent is the next entry, and the first is the pid asked for.
  lemma {:induction false} WalkLinks(src: Source, pid: int, i: nat, max: nat, k: nat)
    requires WellKeyed(src) && i < max && k < |Walk(src, pid, i, max).entries|
    ensures var es := Walk(src, pid, i, max).entries;
      && es[0].pid == pid
      && (k + 1 < |es| ==> es[k].ppid == es[k + 1].pid && !Terminal(es[k]))
    decreases max - i
  {
    var es := Walk(src, pid, i, max).entries;
    if k + 1 < |es| {
      WalkLinks(src, es[0].ppid, i + 1, max, if k == 0 then 0 else k - 1);
    }
  }

  // Where the walk goes, lookup by lookup: on to the parent of every entry, unless
  // that is at most 1 or the entry itself.
  lemma {:induction false} WalkGoesOn(src: Source, pid: int, i: nat, max: nat, k: nat)
    requires WellKeyed(src) && i < max && k < |Walk(src, pid, i, max).entries|
    ensures var es := Walk(src, pid, i, max).entries;
      && src(i + k, if k == 0 then pid else es[k - 1].ppid) == Some(es[k])
      && (k + 1 < |es| ==> es[k].ppid > 1 && es[k].ppid != es[k].pid)
    decreases max - i
  {
    hide WellKeyed;
    var es := Walk(src, pid, i, max).entries;
    var e := src(i, pid).value;
    KeyedBy(src, i, pid);
    if k > 0 {
      var rest := Walk(src, e.ppid, i + 1, max).entries;
      assert es == [e] + rest;
      WalkGoesOn(src, e.ppid, i + 1, max, k - 1);
      assert i + k == i + 1 + (k - 1);
    }
  }

  // Where it ends: after `max` entries, at a parent of at most 1, at a process that
  // is its own parent, or where a lookup finds nothing. The first and the last of
  // these leave it marked as truncated, and only these.
  lemma {:induction false} WalkEnds(src: Source, pid: int, i: nat, max: nat)
    requires WellKeyed(src) && i < max
    ensures var w := Walk(src, pid, i, max);
      && |w.entries| <= max - i
      && (w.entries == [] <==> src(i, pid) == None)
      && (w.entries == [] ==> w.truncated)
      && (w.entries != [] ==>
            var last := w.entries[|w.entries| - 1];
            && (w.truncated <==> last.ppid > 1 && last.ppid != last.pid)
            && (w.truncated ==> |w.entries| == max - i || src(i + |w.entries|, last.ppid) == None))
    decreases max - i
  {
    hide WellKeyed;
    if src(i, pid).Some? {
      var e := src(i, pid).value;
      KeyedBy(src, i, pid);
      if !(e.ppid <= 1 || e.ppid == pid) && i + 1 < max {
        WalkEnds(src, e.ppid, i + 1, max);
        var rest := Walk(src, e.ppid, i + 1, max).entries;
        assert i + 1 + |rest| == i + |[e] + rest|;
      }
    }
  }

  lemma KeyedBy(src: Source, i: nat, pid: int)
    requires WellKeyed(src) && src(i, pid).Some?
    ensures src(i, pid).value.pid == pid
  {
  }

  function Onto(front: seq<ProcInfo>, rest: Chain): Chain {
    Chain(front + rest.entries, rest.truncated)
  }

  // how the walk goes on at one step
  lemma WalkOn(src: Source, cur: int, i: nat, max: nat, front: seq<ProcInfo>)
    requires i < max
    ensures Onto(front, Walk(src, cur, i, max)) ==
      match src(i, cur)
      case None => Chain(front, true)
      case Some(e) =>
        if e.ppid <= 1 || e.ppid == cur then Chain(front + [e], false)
        else if i + 1 == max then Chain(front + [e], true)
        else Onto(front + [e], Walk(src, e.ppid, i + 1, max))
  {
    assert front + [] == front;
    if src(i, cur).Some? {
      assert forall rest :: front + ([src(i, cur).value] + rest) == front + [src(i, cur).value] + rest;
    }
  }

  // ----- the user-space walks ------------------------------------------------------

  // ig_pa_resolve over /proc
  method Resolve(src: Source, pid: int) returns (out: Chain)
    ensures out == if pid <= 0 then Chain([], false) else Walk(src, pid, 0, MAX_DEPTH)
  {
    hide Walk;
    if pid <= 0 { return Chain([], false); }
    assert forall c: Chain :: Onto([], c) == c;
    var chain: seq<ProcInfo>, truncated := [], false;
    var cur := pid;
    var i := 0;
    while i < MAX_DEPTH
      invariant i <= MAX_DEPTH && |chain| == i
      invariant i < MAX_DEPTH ==> !truncated && Walk(src, pid, 0, MAX_DEPTH) == Onto(chain, Walk(src, cur, i, MAX_DEPTH))
      invariant i == MAX_DEPTH ==> Walk(src, pid, 0, MAX_DEPTH) == Chain(chain, truncated)
    {
      WalkOn(src, cur, i, MAX_DEPTH, chain);
      var found := src(i, cur);
      if found.None? { return Chain(chain, true); }
      var e := found.value;
      chain := chain + [e];
      if e.ppid <= 1 || e.ppid == cur { return Chain(chain, truncated); }
      cur := e.ppid;
      if i == MAX_DEPTH - 1 { truncated := true; }
      i := i + 1;
    }
    out := Chain(chain, truncated);
  }

  // A BPF map entry keeps its pids as unsigned 32-bit numbers and has no exe.
  function SignedPid(x: nat): (r: int)
    ensures x < 0x1_0000_0000 ==> -0x8000_0000 <= r < 0x8000_0000 && (r == x || r == x - 0x1_0000_0000)
  {
    if x < 0x8000_0000 then x else x - 0x1_0000_0000
  }

  datatype BpfEntry = BpfEntry(pid: nat, ppid: nat, uid: nat, euid: nat, sid: nat,
                               comm: string, tty: string, startTimeNs: nat, cmdline: string)

  type BpfMap = (nat, int) -> Option<BpfEntry>

  // exe, and an empty cmdline, are filled from /proc as far as it still has them
  function FromBpf(e: BpfEntry, exe: string, cmdline: string): ProcInfo {
    ProcInfo(SignedPid(e.pid), SignedPid(e.ppid), e.uid, e.euid, SignedPid(e.sid), e.tty, e.comm,
             exe, if e.cmdline == "" then cmdline else e.cmdline, 0, e.startTimeNs)
  }

  // What step i of the eBPF walk sees for a pid: the map first, then the first
  // entry of a /proc walk of its own.
  function EbpfSource(bpf: Option<BpfMap>, exe: (nat, int) -> string, cmdline: (nat, int) -> string,
                      proc: nat -> Source): Source
  {
    (i: nat, p: int) =>
      if bpf.Some? && bpf.value(i, p).Some?
      then Some(FromBpf(bpf.value(i, p).value, exe(i, p), cmdline(i, p)))
      else if p <= 0 then None
      else
        var own := Walk(proc(i), p, 0, MAX_DEPTH).entries;
        if own == [] then None else Some(own[0])
  }

  method EbpfLookup(bpf: Option<BpfMap>, exe: (nat, int) -> string, cmdline: (nat, int) -> string,
                    proc: nat -> Source, i: nat, cur: int) returns (found: Option<ProcInfo>)
    ensures found == EbpfSource(bpf, exe, cmdline, proc)(i, cur)
  {
    if bpf.Some? && bpf.value(i, cur).Some? {
      return Some(FromBpf(bpf.value(i, cur).value, exe(i, cur), cmdline(i, cur)));
    }
    var tmp := Resolve(proc(i), cur);
    found := if tmp.entries == [] then None else Some(tmp.entries[0]);
  }

  // ig_ebpf_chain_collect
  method EbpfCollect(bpf: Option<BpfMap>, exe: (nat, int) -> string, cmdline: (nat, int) -> string,
                     proc: nat -> Source, startPid: int) returns (out: Chain)
    ensures out == if startPid <= 0 then Chain([], false)
                   else Walk(EbpfSource(bpf, exe, cmdline, proc), startPid, 0, MAX_DEPTH)
  {
    hide Walk, EbpfSource;
    if startPid <= 0 { return Chain([], false); }
    assert forall c: Chain :: Onto([], c) == c;
    ghost var src := EbpfSource(bpf, exe, cmdline, proc);
    var chain: seq<ProcInfo>, truncated := [], false;
    var cur := startPid;
    var i := 0;
    while i < MAX_DEPTH
      invariant i <= MAX_DEPTH && |chain| == i
      invariant i < MAX_DEPTH ==> !truncated && Walk(src, startPid, 0, MAX_DEPTH) == Onto(chain, Walk(src, cur, i, MAX_DEPTH))
      invariant i == MAX_DEPTH ==> Walk(src, startPid, 0, MAX_DEPTH) == Chain(chain, truncated)
    {
      var found := EbpfLookup(bpf, exe, cmdline, proc, i, cur);
      WalkOn(src, cur, i, MAX_DEPTH, chain);
      if found.None? { return Chain(chain, true); }
      var e := found.value;
      chain := chain + [e];
      if e.ppid <= 1 || e.ppid == cur { return Chain(chain, truncated); }
      cur := e.ppid;
      if i == MAX_DEPTH - 1 { truncated := true; }
      i := i + 1;
    }
    out := Chain(chain, truncated);
  }

  // The combined lookup answers for the pid it was asked about, as the map and
  // /proc do, so WalkIsLongestPath applies to the eBPF walk too.
  lemma EbpfSourceWellKeyed(bpf: Option<BpfMap>, exe: (nat, int) -> string, cmdline: (nat, int) -> string,
                            proc: nat -> Source)
    requires forall i :: WellKeyed(proc(i))
    requires bpf.Some? ==> forall i, p :: bpf.value(i, p).Some? ==> SignedPid(bpf.value(i, p).value.pid) == p
    ensures WellKeyed(EbpfSource(bpf, exe, cmdline, proc))
  {
    var src := EbpfSource(bpf, exe, cmdline, proc);
    forall i, p | src(i, p).Some? ensures src(i, p).value.pid == p {
      if !(bpf.Some? && bpf.value(i, p).Some?) {
        WalkLinks(proc(i), p, 0, MAX_DEPTH, 0);
      }
    }
  }

  // So the chain of ig_ebpf_chain_collect is the longest parent path over the map
  // and /proc together.
  lemma EbpfChainIsLongestPath(bpf: Option<BpfMap>, exe: (nat, int) -> string, cmdline: (nat, int) -> string,
                               proc: nat -> Source, pid: int)
    requires forall i :: WellKeyed(proc(i))
    requires bpf.Some? ==> forall i, p :: bpf.value(i, p).Some? ==> SignedPid(bpf.value(i, p).value.pid) == p
    ensures var src := EbpfSource(bpf, exe, cmdline, proc);
      var w := Walk(src, pid, 0, MAX_DEPTH);
      && |w.entries| <= MAX_DEPTH && IsPath(src, pid, 0, w.entries)
      && (forall es :: IsPath(src, pid, 0, es) && |es| <= MAX_DEPTH ==> es <= w.entries)
      && (w.truncated <==> w.entries == [] || !Terminal(w.entries[|w.entries| - 1]))
  {
    hide EbpfSource, Walk, IsPath, WellKeyed, Terminal;
    var src := EbpfSource(bpf, exe, cmdline, proc);
    EbpfSourceWellKeyed(bpf, exe, cmdline, proc);
    WalkIsPath(src, pid, 0, MAX_DEPTH);
    WalkIsLongestPath(src, pid, MAX_DEPTH);
  }

  // What an entry of that chain shows: the map's entry for its pid, with exe (and
  // a cmdline the map does not have) from /proc, or else what /proc has of it.
  lemma EbpfChainShows(bpf: Option<BpfMap>, exe: (nat, int) -> string, cmdline: (nat, int) -> string,
                       proc: nat -> Source, pid: int, k: nat)
    requires forall i :: WellKeyed(proc(i))
    requires bpf.Some? ==> forall i, p :: bpf.value(i, p).Some? ==> SignedPid(bpf.value(i, p).value.pid) == p
    requires k < |Walk(EbpfSource(bpf, exe, cmdline, proc), pid, 0, MAX_DEPTH).entries|
    ensures var e := Walk(EbpfSource(bpf, exe, cmdline, proc), pid, 0, MAX_DEPTH).entries[k];
      if bpf.Some? && bpf.value(k, e.pid).Some? then
        var b := bpf.value(k, e.pid).value;
        && (b.ppid < 0x1_0000_0000 ==> e.ppid == b.ppid || (b.ppid >= 0x8000_0000 && e.ppid == b.ppid - 0x1_0000_0000))
        && (b.sid < 0x1_0000_0000 ==> e.sid == b.sid || (b.sid >= 0x8000_0000 && e.sid == b.sid - 0x1_0000_0000))
        && e.uid == b.uid && e.euid == b.euid && e.tty == b.tty && e.comm == b.comm
        && e.startTimeNs == b.startTimeNs && e.exe == exe(k, e.pid)
        && (b.cmdline != "" ==> e.cmdline == b.cmdline) && (b.cmdline == "" ==> e.cmdline == cmdline(k, e.pid))
      else e.pid > 0 && proc(k)(0, e.pid) == Some(e)
  {
    hide WellKeyed, Walk;
    var src := EbpfSource(bpf, exe, cmdline, proc);
    EbpfSourceWellKeyed(bpf, exe, cmdline, proc);
    WalkGoesOn(src, pid, 0, MAX_DEPTH, k);
    var es := Walk(src, pid, 0, MAX_DEPTH).entries;
    var asked := if k == 0 then pid else es[k - 1].ppid;
    KeyedBy(src, k, asked);
    if !(bpf.Some? && bpf.value(k, asked).Some?) {
      WalkEnds(proc(k), asked, 0, MAX_DEPTH);
      WalkGoesOn(proc(k), asked, 0, MAX_DEPTH, 0);
    }
  }
}
