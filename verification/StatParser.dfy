// Reading /proc/<pid>/stat: the cursor loops of parse_stat, the terminal name
// derived from the device number, the start time, and what a rendered line parses
// back to.

module StatParser {
  import opened Prelude
  import opened Text

  const READ_LIMIT: nat := 1023        // sizeof(buf) - 1
  const COMM_LEN: nat := 16            // IG_PA_COMM_LEN
  const ULONG: int := 0x1_0000_0000_0000_0000

  // the fields of ig_proc_info_t that parse_stat fills
  datatype Stat = Stat(comm: string, ppid: int, sid: int, tty: string, startTicks: U64, startTimeNs: U64)

  // what load_boot_meta found: the boot time in seconds (0 if unknown) and the
  // ticks per second
  datatype Boot = Boot(epochS: U64, clockTck: int)

  // ----- numbers ------------------------------------------------------------------------

  // strtol and strtoul in base 10 on a 64-bit system
  function Magnitude(s: string): nat {
    if s != "" && (s[0] == '-' || s[0] == '+') then Accumulate(s[1..], 0) else Accumulate(s, 0)
  }

  function StrToL(s: string): int {
    var m: int := Magnitude(s);
    if s != "" && s[0] == '-' then (if m > ULONG / 2 then -(ULONG / 2) else -m)
    else if m > ULONG / 2 - 1 then ULONG / 2 - 1 else m
  }

  function StrToUL(s: string): (r: nat)
    ensures r < ULONG
  {
    var m := Magnitude(s);
    if m >= ULONG then ULONG - 1
    else if s != "" && s[0] == '-' && m > 0 then ULONG - m
    else m
  }

  // conversion to a 32-bit pid_t
  function Int32(x: int): (r: int)
    ensures -0x8000_0000 <= r < 0x8000_0000
    ensures -0x8000_0000 <= x < 0x8000_0000 ==> r == x
  {
    var m := x % 0x1_0000_0000;
    if m < 0x8000_0000 then m else m - 0x1_0000_0000
  }

  // ----- terminal and start time --------------------------------------------------------------

  function MajorOf(ttyNr: nat): nat {
    (ttyNr / 0x100) % 0x100
  }

  // (tty_nr & 0xFF) | ((tty_nr >> 12) & 0xFFF00)
  function MinorOf(ttyNr: nat): nat {
    ttyNr % 0x100 + ((ttyNr / 0x10_0000) % 0x1000) * 0x100
  }

  function TtyName(major: nat, minor: nat): string {
    if major == 136 then "pts/" + Decimal(minor)
    else if major == 4 then "tty" + Decimal(minor)
    else "tty:" + Decimal(major) + "," + Decimal(minor)
  }

  // format_tty
  function FormatTty(ttyNr: nat): string {
    if ttyNr == 0 then "" else TtyName(MajorOf(ttyNr), MinorOf(ttyNr))
  }

  // the start in nanoseconds since 1970, in 64-bit arithmetic
  function StartTime(boot: Boot, startTicks: U64): U64 {
    if boot.epochS != 0 && boot.clockTck > 0
    then (boot.epochS * 1_000_000_000 + startTicks * (1_000_000_000 / boot.clockTck)) % ULONG
    else 0
  }

  // Without a boot time or a tick rate the start is unknown.
  lemma UnknownStart(boot: Boot, startTicks: U64)
    requires boot.epochS == 0 || boot.clockTck <= 0
    ensures StartTime(boot, startTicks) == 0
  {
  }

  // As long as it fits 64 bits, the start is the boot time and the ticks since,
  // exactly if the tick rate divides a second into whole nanoseconds, and at most
  // one nanosecond short per tick if not.
  lemma StartTimeIs(boot: Boot, startTicks: U64)
    requires boot.epochS != 0 && boot.clockTck > 0
    requires boot.epochS * 1_000_000_000 * boot.clockTck + startTicks * 1_000_000_000 < 0x1_0000_0000_0000_0000 * boot.clockTck
    ensures var sinceBoot := StartTime(boot, startTicks) - boot.epochS * 1_000_000_000;
      && sinceBoot >= 0
      && sinceBoot * boot.clockTck <= startTicks * 1_000_000_000 <= (sinceBoot + startTicks) * boot.clockTck
      && (1_000_000_000 % boot.clockTck == 0 ==> sinceBoot * boot.clockTck == startTicks * 1_000_000_000)
  {
    var hz, perTick, left := boot.clockTck, 1_000_000_000 / boot.clockTck, 1_000_000_000 % boot.clockTck;
    TicksScale(startTicks, perTick, hz, left);
    StartFits(boot, startTicks, perTick, left);
    Distribute(startTicks * perTick, startTicks, hz);
  }

  lemma StartFits(boot: Boot, startTicks: U64, perTick: nat, left: nat)
    requires boot.epochS != 0 && boot.clockTck > 0
    requires perTick == 1_000_000_000 / boot.clockTck && left == 1_000_000_000 % boot.clockTck
    requires boot.epochS * 1_000_000_000 * boot.clockTck + startTicks * 1_000_000_000 < 0x1_0000_0000_0000_0000 * boot.clockTck
    ensures StartTime(boot, startTicks) == boot.epochS * 1_000_000_000 + startTicks * perTick
    ensures perTick * boot.clockTck + left == 1_000_000_000
  {
    TicksScale(startTicks, perTick, boot.clockTck, left);
    var start := boot.epochS * 1_000_000_000 + startTicks * perTick;
    Distribute(boot.epochS * 1_000_000_000, startTicks * perTick, boot.clockTck);
    SmallerFactor(start, ULONG, boot.clockTck);
  }

  lemma Distribute(a: int, b: int, m: int)
    ensures (a + b) * m == a * m + b * m
  {
  }

  lemma TicksScale(ticks: nat, perTick: nat, hz: nat, left: nat)
    requires left < hz
    ensures ticks * (perTick * hz + left) == ticks * perTick * hz + ticks * left
    ensures 0 <= ticks * left <= ticks * hz && ticks * perTick >= 0
    ensures left == 0 ==> ticks * left == 0
  {
  }

  lemma SmallerFactor(a: int, b: int, m: nat)
    requires m > 0 && a * m < b * m
    ensures a < b
  {
  }

  // ----- the fields ------------------------------------------------------------------------

  predicate InWord(c: char) {
    c != ' ' && c != '\0'
  }

  function DropSpaces(s: string): string {
    if s != "" && s[0] == ' ' then DropSpaces(s[1..]) else s
  }

  function Word(s: string): string {
    if s != "" && InWord(s[0]) then [s[0]] + Word(s[1..]) else ""
  }

  function AfterWord(s: string): string {
    if s != "" && InWord(s[0]) then AfterWord(s[1..]) else s
  }

  predicate AtEnd(s: string) {
    s == "" || s[0] == '\0'
  }

  // the k-th field from here on, if the text goes on that far
  function FieldAt(s: string, k: nat): Option<string>
    decreases k
  {
    if AtEnd(s) then None
    else
      var t := DropSpaces(s);
      if k == 0 then Some(Word(t)) else FieldAt(AfterWord(t), k - 1)
  }

  function FieldOr(s: string, k: nat): string {
    match FieldAt(s, k) case Some(f) => f case None => ""
  }

  // index of the last ')' before position i
  function LastParen(buf: string, i: nat): (r: Option<nat>)
    requires i <= |buf|
    ensures r.Some? ==> r.value < i && buf[r.value] == ')' && forall k :: r.value < k < i ==> buf[k] != ')'
    ensures r.None? ==> forall k :: 0 <= k < i ==> buf[k] != ')'
  {
    if i == 0 then None else if buf[i - 1] == ')' then Some(i - 1) else LastParen(buf, i - 1)
  }

  // strchr(buf + p, '(')
  function FirstParen(buf: string, p: nat): (r: Option<nat>)
    requires p <= |buf|
    ensures r.Some? ==> p <= r.value < |buf| && buf[r.value] == '(' && forall k :: p <= k < r.value ==> buf[k] !in "(\0"
    ensures r.None? ==> forall k :: p <= k < |buf| && buf[k] == '(' ==> '\0' in buf[p..k]
    decreases |buf| - p
  {
    if p == |buf| || buf[p] == '\0' then None
    else if buf[p] == '(' then Some(p)
    else
      assert forall k :: p < k < |buf| ==> buf[p..k] == [buf[p]] + buf[p + 1..k];
      FirstParen(buf, p + 1)
  }

  function Comm(s: string): (r: string)
    ensures r <= s && |r| < COMM_LEN
    ensures |s| <= 15 ==> r == s
    ensures |s| > 15 ==> |r| == 15
  {
    if |s| >= COMM_LEN then s[..COMM_LEN - 1] else s
  }

  function Filled(boot: Boot, comm: string, ppid: int, sid: int, ttyNr: U64, startTicks: U64): Stat {
    Stat(Comm(comm), Int32(ppid), Int32(sid), FormatTty(ttyNr), startTicks, StartTime(boot, startTicks))
  }

  // fields 4, 6, 7 and 22, counted from behind the state; 0 when missing
  function Fields(boot: Boot, comm: string, behindState: string): Stat {
    Filled(boot, comm, StrToL(FieldOr(behindState, 0)), StrToL(FieldOr(behindState, 2)),
           StrToUL(FieldOr(behindState, 3)), StrToUL(FieldOr(behindState, 18)))
  }

  function Parsed(boot: Boot, buf: string): Option<Stat> {
    match LastParen(buf, |buf|)
    case None => None
    case Some(r) =>
      match FirstParen(buf, 0)
      case None => None
      case Some(l) =>
        if l >= r then None
        else Some(Fields(boot, buf[l + 1..r], AfterWord(DropSpaces(buf[r + 1..]))))
  }

  function ReadBuf(content: string): (r: string)
    ensures r <= content && |r| <= 1023 && (|content| <= 1023 ==> r == content) && (|content| > 1023 ==> |r| == 1023)
  {
    if |content| <= READ_LIMIT then content else content[..READ_LIMIT]
  }

  // the search for the last ')'
  method FindLastParen(buf: string) returns (r: Option<nat>)
    ensures r == LastParen(buf, |buf|)
  {
    var i: nat := |buf|;
    while i > 0
      invariant i <= |buf| && LastParen(buf, |buf|) == LastParen(buf, i)
    {
      if buf[i - 1] == ')' { return Some(i - 1); }
      i := i - 1;
    }
    r := None;
  }

  // strchr(buf, '(')
  method FindFirstParen(buf: string) returns (r: Option<nat>)
    ensures r == FirstParen(buf, 0)
  {
    var i := 0;
    while i < |buf| && buf[i] != '\0'
      invariant i <= |buf| && FirstParen(buf, 0) == FirstParen(buf, i)
    {
      if buf[i] == '(' { return Some(i); }
      i := i + 1;
    }
    r := None;
  }

  // `here` is what is left of `from` behind its first `done` fields
  ghost predicate Remains(from: string, here: string, done: nat) {
    forall k :: done <= k ==> FieldAt(from, k) == FieldAt(here, k - done)
  }

  // one round of the field loop
  lemma NextField(from: string, here: string, done: nat)
    requires !AtEnd(here) && Remains(from, here, done)
    ensures FieldOr(from, done) == Word(DropSpaces(here))
    ensures Remains(from, AfterWord(DropSpaces(here)), done + 1)
  {
    assert FieldAt(from, done) == FieldAt(here, 0);
    forall k | done + 1 <= k
      ensures FieldAt(from, k) == FieldAt(AfterWord(DropSpaces(here)), k - (done + 1))
    {
      assert FieldAt(from, k) == FieldAt(here, k - done);
    }
  }

  lemma NoMoreFields(from: string, here: string, done: nat)
    requires AtEnd(here) && Remains(from, here, done)
    ensures forall k :: done <= k ==> FieldOr(from, k) == ""
  {
    forall k | done <= k ensures FieldOr(from, k) == "" {
      assert FieldAt(from, k) == FieldAt(here, k - done);
    }
  }

  lemma AllRemain(from: string)
    ensures Remains(from, from, 0)
  {
  }

  // the loop over fields 4 to 22, from behind the state on
  method ParseFields(buf: string, start: nat) returns (ppid: int, sid: int, ttyNr: U64, startTicks: U64)
    requires start <= |buf|
    ensures var from := buf[start..];
      && ppid == StrToL(FieldOr(from, 0)) && sid == StrToL(FieldOr(from, 2))
      && ttyNr == StrToUL(FieldOr(from, 3)) && startTicks == StrToUL(FieldOr(from, 18))
  {
    hide StrToL, StrToUL, FieldOr, DropSpaces, Word, AfterWord, Remains;
    ghost var from := buf[start..];
    AllRemain(from);
    var p := start;
    ppid, sid, ttyNr, startTicks := 0, 0, 0, 0;
    var field := 4;
    while p < |buf| && buf[p] != '\0' && field <= 22
      invariant 4 <= field <= 23 && p <= |buf|
      invariant Remains(from, buf[p..], field - 4)
      invariant ppid == if field > 4 then StrToL(FieldOr(from, 0)) else 0
      invariant sid == if field > 6 then StrToL(FieldOr(from, 2)) else 0
      invariant ttyNr == if field > 7 then StrToUL(FieldOr(from, 3)) else 0
      invariant startTicks == if field > 22 then StrToUL(FieldOr(from, 18)) else 0
      decreases 23 - field
    {
      NextField(from, buf[p..], field - 4);
      p := SkipSpaces(buf, p);
      var next := SkipWord(buf, p);
      match field {
        case 4 => ppid := StrToL(buf[p..next]);
        case 6 => sid := StrToL(buf[p..next]);
        case 7 => ttyNr := StrToUL(buf[p..next]);
        case 22 => startTicks := StrToUL(buf[p..next]);
        case _ =>
      }
      p := next;
      field := field + 1;
    }
    NumbersOfNothing();
    if field <= 22 { NoMoreFields(from, buf[p..], field - 4); }
  }

  // parse_stat
  method ParseStat(boot: Boot, content: string) returns (info: Option<Stat>)
    ensures info == Parsed(boot, ReadBuf(content))
  {
    hide StrToL, StrToUL, FieldAt, FieldOr, DropSpaces, AfterWord, Word, LastParen, FirstParen;
    var buf := if |content| <= READ_LIMIT then content else content[..READ_LIMIT];
    var rparen := FindLastParen(buf);
    if rparen.None? { return None; }
    var lparen := FindFirstParen(buf);
    if lparen.None? || lparen.value >= rparen.value { return None; }
    var comm := buf[lparen.value + 1..rparen.value];
    if |comm| >= COMM_LEN { comm := comm[..COMM_LEN - 1]; }
    var p := SkipSpaces(buf, rparen.value + 1);
    p := SkipWord(buf, p);
    var ppid, sid, ttyNr, startTicks := ParseFields(buf, p);
    var tty := FormatTty(ttyNr);
    var startTimeNs: U64 := 0;
    if boot.epochS != 0 && boot.clockTck > 0 {
      var nsPerTick := 1_000_000_000 / boot.clockTck;
      startTimeNs := (boot.epochS * 1_000_000_000 + startTicks * nsPerTick) % ULONG;
    }
    info := Some(Stat(comm, Int32(ppid), Int32(sid), tty, startTicks, startTimeNs));
  }

  lemma NumbersOfNothing()
    ensures StrToL("") == 0 && StrToUL("") == 0
  {
  }

  method SkipSpaces(buf: string, start: nat) returns (p: nat)
    requires start <= |buf|
    ensures start <= p <= |buf| && buf[p..] == DropSpaces(buf[start..])
  {
    p := start;
    while p < |buf| && buf[p] == ' '
      invariant start <= p <= |buf| && DropSpaces(buf[p..]) == DropSpaces(buf[start..])
    {
      assert buf[p..][1..] == buf[p + 1..];
      p := p + 1;
    }
  }

  method SkipWord(buf: string, start: nat) returns (p: nat)
    requires start <= |buf|
    ensures start <= p <= |buf| && buf[start..p] == Word(buf[start..]) && buf[p..] == AfterWord(buf[start..])
  {
    p := start;
    while p < |buf| && buf[p] != '\0' && buf[p] != ' '
      invariant start <= p <= |buf| && AfterWord(buf[p..]) == AfterWord(buf[start..])
      invariant buf[start..p] + Word(buf[p..]) == Word(buf[start..])
    {
      assert buf[p..][1..] == buf[p + 1..];
      assert buf[start..p + 1] == buf[start..p] + [buf[p]];
      Regroup(buf[start..p], [buf[p]], Word(buf[p + 1..]));
      p := p + 1;
    }
    assert buf[start..p] + "" == buf[start..p];
  }

  lemma Regroup(a: string, b: string, c: string)
    ensures (a + b) + c == a + (b + c)
  {
  }

  // ----- a rendered line ------------------------------------------------------------------------

  predicate Plain(f: string) {
    f != "" && forall i :: 0 <= i < |f| ==> InWord(f[i]) && f[i] != ')'
  }

  function Joined(fields: seq<string>): string {
    if fields == [] then "" else " " + fields[0] + Joined(fields[1..])
  }

  function Rendered(pid: nat, comm: string, state: char, fields: seq<string>): string {
    Decimal(pid) + " (" + comm + ")" + " " + [state] + Joined(fields)
  }

  // what may follow a field: nothing, or a space and more without a ')'
  predicate Tail(rest: string) {
    (rest != "" ==> rest[0] == ' ') && forall i :: 0 <= i < |rest| ==> rest[i] != ')'
  }

  lemma {:induction false} LastParenIs(a: string, b: string, i: nat)
    requires |a| < i <= |a| + 1 + |b| && forall k :: 0 <= k < |b| ==> b[k] != ')'
    ensures LastParen(a + ")" + b, i) == Some(|a|)
  {
    var s := a + ")" + b;
    if i > |a| + 1 {
      assert s[i - 1] == b[i - 2 - |a|];
      LastParenIs(a, b, i - 1);
    } else {
      assert s[|a|] == ')';
    }
  }

  lemma {:induction false} FirstParenIs(a: string, b: string, p: nat)
    requires p <= |a| && forall k :: 0 <= k < |a| ==> a[k] != '(' && a[k] != '\0'
    ensures FirstParen(a + "(" + b, p) == Some(|a|)
    decreases |a| - p
  {
    var s := a + "(" + b;
    if p < |a| {
      assert s[p] == a[p];
      FirstParenIs(a, b, p + 1);
    } else {
      assert s[|a|] == '(';
    }
  }

  lemma {:induction false} WordIs(w: string, rest: string)
    requires (forall i :: 0 <= i < |w| ==> InWord(w[i])) && (rest == "" || !InWord(rest[0]))
    ensures Word(w + rest) == w && AfterWord(w + rest) == rest
  {
    if w == "" {
      assert w + rest == rest;
    } else {
      assert (w + rest)[1..] == w[1..] + rest;
      WordIs(w[1..], rest);
      assert [w[0]] + w[1..] == w;
    }
  }

  lemma DropOneSpace(s: string)
    requires s != "" && s[0] != ' '
    ensures DropSpaces(" " + s) == s
  {
    assert (" " + s)[1..] == s;
  }

  lemma JoinedStart(fields: seq<string>, rest: string)
    requires Tail(rest) && forall i :: 0 <= i < |fields| ==> Plain(fields[i])
    ensures Joined(fields) + rest == "" || (Joined(fields) + rest)[0] == ' '
  {
  }

  // Each field is found again by its number, whatever follows the last.
  lemma {:induction false} FieldIs(fields: seq<string>, rest: string, k: nat)
    requires Tail(rest) && k < |fields| && forall i :: 0 <= i < |fields| ==> Plain(fields[i])
    ensures FieldAt(Joined(fields) + rest, k) == Some(fields[k])
  {
    var f, later := fields[0], Joined(fields[1..]) + rest;
    var s := Joined(fields) + rest;
    assert s == " " + (f + later);
    assert (f + later)[0] == f[0];
    JoinedStart(fields[1..], rest);
    DropOneSpace(f + later);
    WordIs(f, later);
    if k > 0 { FieldIs(fields[1..], rest, k - 1); }
  }

  lemma {:induction false} JoinedPlain(fields: seq<string>)
    requires forall i :: 0 <= i < |fields| ==> Plain(fields[i])
    ensures forall i :: 0 <= i < |Joined(fields)| ==> Joined(fields)[i] != ')'
  {
    if fields != [] {
      JoinedPlain(fields[1..]);
      var j := " " + fields[0] + Joined(fields[1..]);
      forall i | 0 <= i < |j| ensures j[i] != ')' {
        if 1 <= i < 1 + |fields[0]| { assert j[i] == fields[0][i - 1]; }
        if i >= 1 + |fields[0]| { assert j[i] == Joined(fields[1..])[i - 1 - |fields[0]|]; }
      }
    }
  }

  // For every command name, spaces and parentheses included, the line gives back
  // the name (kept to 15 bytes) and the numbers of its fields.
  lemma ParsedRendered(boot: Boot, pid: nat, comm: string, state: char, fields: seq<string>, rest: string)
    requires |fields| == 19 && forall i :: 0 <= i < |fields| ==> Plain(fields[i])
    requires Plain([state]) && Tail(rest)
    ensures Parsed(boot, Rendered(pid, comm, state, fields) + rest) ==
      Some(Filled(boot, comm, StrToL(fields[0]), StrToL(fields[2]), StrToUL(fields[3]), StrToUL(fields[18])))
  {
    hide StrToL, StrToUL, Joined, Filled, FieldAt, LastParen, FirstParen, Word, AfterWord, DropSpaces, Plain;
    var line := Rendered(pid, comm, state, fields) + rest;
    var after := " " + ([state] + (Joined(fields) + rest));
    var upTo := Decimal(pid) + " (" + comm;
    JoinedPlain(fields);
    StatePlain(state);
    assert line == upTo + ")" + after;
    forall k | 0 <= k < |after| ensures after[k] != ')' {
      if k >= 2 {
        assert after[k] == (Joined(fields) + rest)[k - 2];
      } else if k == 1 {
        assert after[1] == state;
      }
    }
    LastParenIs(upTo, after, |line|);
    var pre := Decimal(pid) + " ";
    assert line == pre + "(" + (comm + ")" + after);
    forall k | 0 <= k < |pre| ensures pre[k] != '(' && pre[k] != '\0' {
      if k < |Decimal(pid)| { assert pre[k] == Decimal(pid)[k] && Decimal(pid)[k] in Decimal(pid); }
    }
    FirstParenIs(pre, comm + ")" + after, 0);
    assert line[|pre| + 1..|upTo|] == comm;
    assert line[|upTo| + 1..] == after;
    JoinedStart(fields, rest);
    DropOneSpace([state] + (Joined(fields) + rest));
    WordIs([state], Joined(fields) + rest);
    FieldIs(fields, rest, 0);
    FieldIs(fields, rest, 2);
    FieldIs(fields, rest, 3);
    FieldIs(fields, rest, 18);
  }

  lemma StatePlain(state: char)
    requires Plain([state])
    ensures InWord(state) && state != ' ' && state != ')'
  {
    assert [state][0] == state;
  }

  // The same for a line longer than the buffer, as long as field 22 ends within
  // the 1023 bytes read.
  lemma ParsedFromFile(boot: Boot, pid: nat, comm: string, state: char, fields: seq<string>, rest: string)
    requires |fields| == 19 && forall i :: 0 <= i < |fields| ==> Plain(fields[i])
    requires Plain([state]) && Tail(rest)
    requires |Rendered(pid, comm, state, fields)| <= READ_LIMIT
    ensures Parsed(boot, ReadBuf(Rendered(pid, comm, state, fields) + rest)) ==
      Some(Filled(boot, comm, StrToL(fields[0]), StrToL(fields[2]), StrToUL(fields[3]), StrToUL(fields[18])))
  {
    var line := Rendered(pid, comm, state, fields);
    if |line + rest| <= READ_LIMIT {
      ParsedRendered(boot, pid, comm, state, fields, rest);
    } else {
      var kept := rest[..READ_LIMIT - |line|];
      assert ReadBuf(line + rest) == line + kept;
      ParsedRendered(boot, pid, comm, state, fields, kept);
    }
  }

  // ----- numerals and the terminal --------------------------------------------------------------

  function Signed(x: int): string {
    if x < 0 then "-" + Decimal(-x) else Decimal(x)
  }

  lemma DecimalStart(n: nat)
    ensures IsDigit(Decimal(n)[0])
  {
    assert Decimal(n)[0] in Decimal(n);
  }

  lemma SignedIsPlain(x: int)
    ensures Plain(Signed(x))
  {
    var n := if x < 0 then -x else x;
    forall i | 0 <= i < |Signed(x)| ensures InWord(Signed(x)[i]) && Signed(x)[i] != ')' {
      var j := if x < 0 then i - 1 else i;
      if j >= 0 { assert Signed(x)[i] == Decimal(n)[j] && Decimal(n)[j] in Decimal(n); }
    }
  }

  lemma NumberReadBack(x: int)
    requires -0x8000_0000 <= x < ULONG
    ensures x < ULONG / 2 ==> StrToL(Signed(x)) == x
    ensures StrToUL(Signed(x)) == x % ULONG
  {
    hide Accumulate, Decimal;
    var n := if x < 0 then -x else x;
    DecimalStart(n);
    DecimalValue(n);
    if x < 0 { assert Signed(x)[1..] == Decimal(n); }
  }

  // the device number the kernel prints, as a signed 32-bit value
  function Device(major: nat, minor: nat): nat {
    minor % 0x100 + major * 0x100 + (minor / 0x100) * 0x10_0000
  }

  // The split inverts the packing, also when the kernel printed a device number
  // with its top bit set as a negative one.
  lemma SplitInvertsPacking(major: nat, minor: nat)
    requires major < 0x100 && minor < 0x10_0000
    ensures Device(major, minor) < 0x1_0000_0000
    ensures var printed := Int32(Device(major, minor));
      && MajorOf(StrToUL(Signed(printed))) == major
      && MinorOf(StrToUL(Signed(printed))) == minor
  {
    hide StrToUL, StrToL, Signed, Device, MajorOf, MinorOf;
    DeviceFits(major, minor);
    var d := Device(major, minor);
    NumberReadBack(Int32(d));
    SplitDevice(major, minor, 0);
    SplitDevice(major, minor, 0xFFFF_FFFF);
    Printed(d);
  }

  lemma DeviceFits(major: nat, minor: nat)
    requires major < 0x100 && minor < 0x10_0000
    ensures Device(major, minor) < 0x1_0000_0000
  {
  }

  lemma Printed(d: nat)
    requires d < 0x1_0000_0000
    ensures Int32(d) % ULONG == d || Int32(d) % ULONG == d + 0xFFFF_FFFF * 0x1_0000_0000
  {
  }

  lemma By8(a: nat, b: nat)
    requires a < 0x100
    ensures (a + 0x100 * b) / 0x100 == b && (a + 0x100 * b) % 0x100 == a
  {
  }

  lemma By12(a: nat, b: nat)
    requires a < 0x1000
    ensures (a + 0x1000 * b) % 0x1000 == a
  {
  }

  lemma By20(a: nat, b: nat)
    requires a < 0x10_0000
    ensures (a + 0x10_0000 * b) / 0x10_0000 == b
  {
  }

  lemma SplitDevice(major: nat, minor: nat, high: nat)
    requires major < 0x100 && minor < 0x10_0000
    ensures MajorOf(Device(major, minor) + high * 0x1_0000_0000) == major
    ensures MinorOf(Device(major, minor) + high * 0x1_0000_0000) == minor
  {
    var low, top := minor % 0x100, minor / 0x100;
    var d := Device(major, minor) + high * 0x1_0000_0000;
    var rest := top + 0x1000 * high;
    var upper := major + 0x100 * (0x10 * rest);
    assert d == low + 0x100 * upper;
    assert d == (low + 0x100 * major) + 0x10_0000 * rest;
    By8(low, upper);
    By8(major, 0x10 * rest);
    By20(low + 0x100 * major, rest);
    By12(top, high);
  }

  // Sample device numbers: 136 is a pseudo-terminal, 4 a console, the minor's upper
  // bits stand behind the major, and 0 is no terminal.
  lemma TtySamples()
    ensures FormatTty(0) == ""
    ensures FormatTty(0x8803) == "pts/" + Decimal(3) && FormatTty(0x10_8800) == "pts/" + Decimal(256)
    ensures FormatTty(0x0401) == "tty" + Decimal(1) && FormatTty(0x0302) == "tty:" + Decimal(3) + "," + Decimal(2)
  {
    hide Decimal;
    assert MinorOf(0x10_8800) == 256;
  }

  // Numbers beyond the range of the type stick to its ends.
  lemma NumbersStick(n: nat)
    ensures n >= ULONG / 2 ==> StrToL(Decimal(n)) == ULONG / 2 - 1 && StrToL("-" + Decimal(n)) == -(ULONG / 2)
    ensures n >= ULONG ==> StrToUL(Decimal(n)) == ULONG - 1
  {
    hide Accumulate, Decimal;
    DecimalStart(n);
    DecimalValue(n);
    assert ("-" + Decimal(n))[1..] == Decimal(n);
  }

  // the kind of terminal shows in the text
  lemma TtyKind(major: nat, minor: nat)
    ensures var t := TtyName(major, minor);
      |t| > 3 && (t[0] == 'p' <==> major == 136) && (major != 136 ==> (t[3] == ':' <==> major != 4))
  {
    hide Decimal;
    DecimalStart(minor);
    if major == 4 { assert TtyName(major, minor)[3] == Decimal(minor)[0]; }
  }

  // A terminal's text tells which device it is.
  lemma TtyNamesDiffer(major: nat, minor: nat, major': nat, minor': nat)
    requires TtyName(major, minor) == TtyName(major', minor')
    ensures major == major' && minor == minor'
  {
    hide Decimal, Accumulate;
    var a, b := TtyName(major, minor), TtyName(major', minor');
    TtyKind(major, minor);
    TtyKind(major', minor');
    DecimalValue(minor);
    DecimalValue(minor');
    if major == 136 {
      assert a[4..] == Decimal(minor) && b[4..] == Decimal(minor');
    } else if major == 4 {
      assert a[3..] == Decimal(minor) && b[3..] == Decimal(minor');
    } else {
      var c, d := "," + Decimal(minor), "," + Decimal(minor');
      assert a[4..] == Decimal(major) + c && b[4..] == Decimal(major') + d;
      DecimalRoundTrip(major, c);
      DecimalRoundTrip(major', d);
      assert (Decimal(major) + c)[|Decimal(major)| + 1..] == Decimal(minor);
      assert (Decimal(major) + d)[|Decimal(major)| + 1..] == Decimal(minor');
    }
  }

  lemma NoTerminal(major: nat, minor: nat)
    requires major < 0x100 && minor < 0x10_0000
    ensures StrToUL(Signed(Int32(Device(major, minor)))) == 0 <==> major == 0 && minor == 0
  {
    hide StrToUL, StrToL, Signed;
    DeviceFits(major, minor);
    NumberReadBack(Int32(Device(major, minor)));
    Printed(Device(major, minor));
  }

  // The whole round trip, whatever the command is called: parent, session and start
  // ticks come back as they were, the start time is computed from those ticks, and
  // the terminal is named after the device number that was packed and printed.
  lemma StatRoundTrip(boot: Boot, pid: nat, comm: string, state: char, fields: seq<string>, rest: string,
                      ppid: int, sid: int, major: nat, minor: nat, startTicks: nat)
    requires |fields| == 19 && forall i :: 0 <= i < |fields| && i !in {0, 2, 3, 18} ==> Plain(fields[i])
    requires Plain([state]) && Tail(rest) && |Rendered(pid, comm, state, fields)| <= READ_LIMIT
    requires -0x8000_0000 <= ppid < 0x8000_0000 && -0x8000_0000 <= sid < 0x8000_0000
    requires major < 0x100 && minor < 0x10_0000 && startTicks < ULONG
    requires fields[0] == Signed(ppid) && fields[2] == Signed(sid)
    requires fields[3] == Signed(Int32(Device(major, minor))) && fields[18] == Signed(startTicks)
    ensures Parsed(boot, ReadBuf(Rendered(pid, comm, state, fields) + rest)) ==
      Some(Stat(Comm(comm), ppid, sid, if major == 0 && minor == 0 then "" else TtyName(major, minor),
                startTicks, StartTime(boot, startTicks)))
  {
    hide StrToL, StrToUL, Parsed, Rendered, ReadBuf, Signed, Device, MajorOf, MinorOf, Plain, TtyName, StartTime;
    SignedIsPlain(ppid);
    SignedIsPlain(sid);
    SignedIsPlain(Int32(Device(major, minor)));
    SignedIsPlain(startTicks);
    ParsedFromFile(boot, pid, comm, state, fields, rest);
    NumberReadBack(ppid);
    NumberReadBack(sid);
    NumberReadBack(startTicks);
    SplitInvertsPacking(major, minor);
    NoTerminal(major, minor);
  }
}
