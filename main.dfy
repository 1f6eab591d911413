/**
 * Package main of trwho: the host list built from the configuration and merged
 * with decoded spool packets by hostname, the display value of each column for
 * a host, and the read-only grid the terminal table is drawn from.
 *
 * DNS resolution (net.LookupHost in NewHost) is the parameter `lookup`: the
 * address recorded for a hostname when its host is created ("" when the lookup
 * fails). The wall clock is the parameter `now`, in nanoseconds since the epoch.
 */
module Trwho {
  import opened Binary
  import opened Go
  import opened Rwho

  // ===========================================================================
  // Columns

  /** The table's columns, in order. */
  datatype HostProperty = Hostname | Note | DnsRecord | Uptime | Load | Users

  const HostPropertyCount: int := 6

  /** HostProperty(i): the column an integer names, if any. */
  function PropertyOf(i: int): (p: Option<HostProperty>)
    ensures p.Some? <==> 0 <= i < HostPropertyCount
  {
    if i == 0 then Some(Hostname)
    else if i == 1 then Some(Note)
    else if i == 2 then Some(DnsRecord)
    else if i == 3 then Some(Uptime)
    else if i == 4 then Some(Load)
    else if i == 5 then Some(Users)
    else None
  }

  /** HostProperty.String: the column title, "" for any integer that names no column. */
  function PropertyString(i: int): (s: string)
    ensures s == "" <==> !(0 <= i < HostPropertyCount)
  {
    match PropertyOf(i)
    case None => ""
    case Some(p) =>
      match p
      case Hostname => "Hostname"
      case Note => "Note"
      case DnsRecord => "DNS Record"
      case Uptime => "Uptime"
      case Load => "Load"
      case Users => "Users(idle time)"
  }

  // ===========================================================================
  // Hosts

  datatype ConfigHostEntry = ConfigHostEntry(Hostname: string, Note: string)

  /** A row of the table: a hostname, its latest packet and its configuration, each possibly absent. */
  datatype Host = Host(Hostname: string, Whod: Option<Whod>, Config: Option<ConfigHostEntry>, IpAddress: string)

  /** NewHost: no packet, no configuration, the address resolved now. */
  function NewHost(hostname: string, lookup: string -> string): (h: Host)
    ensures h.Hostname == hostname && h.Whod.None? && h.Config.None? && h.IpAddress == lookup(hostname)
  {
    Host(hostname, None, None, lookup(hostname))
  }

  /** Host.IsDown: a host without a packet is down; otherwise its packet's header decides. */
  predicate HostIsDown(h: Host, now: int): (down: bool)
    ensures down <==> h.Whod.None? || now - h.Whod.value.Header.Sendtime * Second > 600 * Second
  {
    h.Whod.None? || IsDown(h.Whod.value.Header, now)
  }

  /** A host that is down stays down as time passes (until a new packet is merged). */
  lemma HostIsDownMonotone(h: Host, now: int, later: int)
    requires now <= later && HostIsDown(h, now)
    ensures HostIsDown(h, later)
  {
    if h.Whod.Some? {
      IsDownMonotone(h.Whod.value.Header, now, later);
    }
  }

  // ===========================================================================
  // Display values

  /** Hours in decimal, ':', then two minute digits 00..59. */
  predicate ClockText(s: string)
  {
    |s| >= 4 && s[|s| - 3] == ':'
    && (forall i :: 0 <= i < |s| - 3 ==> IsDigit(s[i]))
    && IsDigit(s[|s| - 2]) && s[|s| - 2] <= '5' && IsDigit(s[|s| - 1])
  }

  lemma ClockTextOf(h: nat, m: int)
    requires 0 <= m < 60
    ensures ClockText(Digits(h) + ":" + Pad2(m))
  {
    var p := Pad2(m);
    if m >= 10 {
      assert Digits(m) == Digits(m / 10) + [DigitChar(m % 10)];
    }
    assert |p| == 2 && IsDigit(p[0]) && p[0] <= '5' && IsDigit(p[1]);
  }

  /**
   * fmtDuration: d rounded to the minute, as hours ":" two-digit minutes (Go's
   * / and %). A non-negative duration always prints as H:MM.
   */
  function FmtDuration(d: Duration): (s: string)
    ensures d >= 0 ==> ClockText(s)
  {
    var r := RoundMinute(d);
    var text := FormatInt(Quot(r, Hour)) + ":" + Pad2(Quot(Rem(r, Hour), Minute));
    if d >= 0 then
      RoundMinuteNonNegative(d);
      assert r >= 0;
      assert 0 <= r % Hour / Minute < 60;
      ClockTextOf(r / Hour, r % Hour / Minute);
      text
    else text
  }

  /**
   * For every non-negative duration fmtDuration prints H:MM, MM two digits in
   * 00..59, where H*60+MM is d rounded to the nearest minute, halves up.
   */
  lemma FmtDurationNonNegative(d: Duration)
    requires 0 <= d
    ensures var m := (d + Minute / 2) / Minute;
            FmtDuration(d) == Digits(m / 60) + ":" + [DigitChar(m % 60 / 10), DigitChar(m % 60 % 10)]
            && -Minute / 2 <= d - m * Minute < Minute / 2
  {
    var m := (d + Minute / 2) / Minute;
    RoundMinuteNonNegative(d);
    var r := RoundMinute(d);
    assert r == m * 60_000_000_000;
    var a, b := m / 60, m % 60;
    assert m == 60 * a + b;
    assert r == a * 3_600_000_000_000 + b * 60_000_000_000;
    assert Quot(r, Hour) == a;
    assert Rem(r, Hour) == b * 60_000_000_000;
    assert Quot(Rem(r, Hour), Minute) == b;
    if b >= 10 {
      assert Digits(b) == Digits(b / 10) + [DigitChar(b % 10)];
    }
    assert Pad2(b) == [DigitChar(b / 10), DigitChar(b % 10)];
  }

  /** surround: the text between two copies of the pad. */
  function Surround(s: string, c: string): (r: string)
    ensures |r| == |s| + 2 * |c| && r[|c|..|c| + |s|] == s
    ensures r[..|c|] == c && r[|c| + |s|..] == c
  {
    c + s + c
  }

  /** One session's token: user@tty(idle). */
  function Token(e: WhoEntry): string
  {
    GetUser(e) + "@" + GetTty(e) + "(" + FmtDuration(GetIdleTime(e)) + ")"
  }

  function Tokens(es: seq<WhoEntry>): (ts: seq<string>)
    ensures |ts| == |es| && forall i :: 0 <= i < |es| ==> ts[i] == Token(es[i])
  {
    seq(|es|, i requires 0 <= i < |es| => Token(es[i]))
  }

  /** The strings joined by single spaces. */
  function Join(ts: seq<string>): string
    decreases |ts|
  {
    if |ts| == 0 then "" else if |ts| == 1 then ts[0] else Join(ts[..|ts| - 1]) + " " + ts[|ts| - 1]
  }

  /** A join starts with its first string. */
  lemma {:induction false} JoinStartsWithFirst(ts: seq<string>)
    requires |ts| > 0
    ensures ts[0] <= Join(ts)
    decreases |ts|
  {
    if |ts| > 1 {
      JoinStartsWithFirst(ts[..|ts| - 1]);
    }
  }

  /** Appending a token piece by piece appends the token. */
  lemma AppendToken(a: string, user: string, tty: string, idle: string)
    ensures a + user + "@" + tty + "(" + idle + ")" + " " == a + (user + "@" + tty + "(" + idle + ")") + " "
  {
  }

  /** Joining one more string: a space and the string, after the first. */
  lemma JoinSnoc(ts: seq<string>, i: nat)
    requires i < |ts|
    ensures Join(ts[..i + 1]) == if i == 0 then ts[0] else Join(ts[..i]) + " " + ts[i]
  {
    assert ts[..i + 1][..i] == ts[..i];
  }

  /** The text built before string i, followed by string i and a space: the join up to i, and a space. */
  lemma JoinStep(ts: seq<string>, i: nat, acc: string)
    requires i < |ts| && acc == if i == 0 then "" else Join(ts[..i]) + " "
    ensures acc + ts[i] + " " == Join(ts[..i + 1]) + " "
  {
    JoinSnoc(ts, i);
  }

  /**
   * The Users column of a live host: the tokens in packet order,
   * single-spaced, leading white space trimmed. It is empty exactly when
   * there are no entries, and otherwise ends with the last token's ')'.
   */
  function UsersLine(es: seq<WhoEntry>): (s: string)
    ensures s == "" <==> |es| == 0
    ensures |es| > 0 ==> EndsInParen(s)
    ensures |s| <= |Join(Tokens(es))| && s == Join(Tokens(es))[|Join(Tokens(es))| - |s|..]
  {
    var j := Join(Tokens(es));
    if |es| > 0 then
      TokensJoinShape(es);
      TrimmedToken(j, |GetUser(es[0])|);
      TrimLeftSpace(j)
    else
      assert j == "";
      TrimLeftSpace(j)
  }

  /** What TrimLeftSpace leaves of a token-like text: a non-empty tail of it that still ends in ')'. */
  lemma TrimmedToken(j: string, k: nat)
    requires TokenLike(j, k)
    ensures TrimLeftSpace(j) != "" && EndsInParen(TrimLeftSpace(j))
    ensures |TrimLeftSpace(j)| <= |j| && TrimLeftSpace(j) == j[|j| - |TrimLeftSpace(j)|..]
  {
    TrimSpaceOfSpaced(j, k);
  }

  /** t has an '@' at k and ends in ')'. */
  predicate TokenLike(t: string, k: nat)
  {
    k < |t| && t[k] == '@' && EndsInParen(t)
  }

  predicate EndsInParen(t: string)
  {
    |t| > 0 && t[|t| - 1] == ')'
  }

  lemma PiecesShape(user: string, tty: string, idle: string)
    ensures TokenLike(user + "@" + tty + "(" + idle + ")", |user|)
  {
    var t := user + "@" + tty + "(" + idle + ")";
    assert t == user + ("@" + tty + "(" + idle + ")");
  }

  /** A token has its '@' right after the user name and ends in ')'. */
  lemma TokenShape(e: WhoEntry)
    ensures TokenLike(Token(e), |GetUser(e)|)
  {
    PiecesShape(GetUser(e), GetTty(e), FmtDuration(GetIdleTime(e)));
  }

  /** A join keeps the first string's '@' and the last string's final ')'. */
  lemma JoinShape(ts: seq<string>, k: nat)
    requires |ts| > 0 && TokenLike(ts[0], k) && EndsInParen(ts[|ts| - 1])
    ensures TokenLike(Join(ts), k)
  {
    JoinStartsWithFirst(ts);
    var j, t0, last := Join(ts), ts[0], ts[|ts| - 1];
    assert j[k] == t0[k];
    assert j[|j| - 1] == last[|last| - 1];
    assert EndsInParen(j);
  }

  /** A join whose first string starts with no white space has no leading white space. */
  lemma JoinNoLeadingSpace(ts: seq<string>, k: nat)
    requires |ts| > 0 && TokenLike(ts[0], k) && LeadingSpaceWidth(ts[0]) == 0
    ensures TrimLeftSpace(Join(ts)) == Join(ts)
  {
    JoinStartsWithFirst(ts);
    var j, t0 := Join(ts), ts[0];
    assert LeadingSpace(t0) == 0;
    assert j == t0 + j[|t0|..];
    LeadingSpaceStopsAtAt(t0, j[|t0|..], k);
    assert j[0..] == j;
  }

  /** Facts about the joined tokens that TrimSpace's effect depends on. */
  lemma TokensJoinShape(es: seq<WhoEntry>)
    requires |es| > 0
    ensures TokenLike(Join(Tokens(es)), |GetUser(es[0])|)
  {
    TokenShape(es[0]);
    TokenShape(es[|es| - 1]);
    JoinShape(Tokens(es), |GetUser(es[0])|);
  }

  /** When the first user name does not start with white space, the Users column is exactly the join. */
  lemma UsersLineIsJoin(es: seq<WhoEntry>)
    requires |es| > 0 ==> LeadingSpaceWidth(Token(es[0])) == 0
    ensures UsersLine(es) == Join(Tokens(es))
  {
    if |es| > 0 {
      TokenShape(es[0]);
      JoinNoLeadingSpace(Tokens(es), |GetUser(es[0])|);
    }
  }

  /**
   * The loop in Value(Users): appends user "@" tty "(" idle ")" " " per entry,
   * then strings.TrimSpace.
   */
  method UsersText(entries: seq<WhoEntry>) returns (text: string)
    ensures text == UsersLine(entries)
    ensures text == "" <==> |entries| == 0
  {
    ghost var ts := Tokens(entries);
    var acc := "";
    for i := 0 to |entries|
      invariant acc == if i == 0 then "" else Join(ts[..i]) + " "
    {
      ghost var before := acc;
      var user, tty, idle := GetUser(entries[i]), GetTty(entries[i]), FmtDuration(GetIdleTime(entries[i]));
      acc := acc + user;
      acc := acc + "@" + tty;
      acc := acc + "(" + idle + ")" + " ";
      AppendToken(before, user, tty, idle);
      assert ts[i] == user + "@" + tty + "(" + idle + ")";
      JoinStep(ts, i, before);
    }
    text := TrimSpace(acc);
    assert ts[..|entries|] == ts;
    if |entries| > 0 {
      TokensJoinShape(entries);
      TrimSpaceOfSpaced(Join(ts), |GetUser(entries[0])|);
    }
  }

  /** Host.Value as a function of the host, the column and the clock. */
  function ValueOf(h: Host, i: int, now: int): (s: string)
    ensures PropertyOf(i).None? ==> s == ""
    ensures PropertyOf(i) == Some(Hostname) ==> s == h.Hostname
    ensures PropertyOf(i) == Some(Note) ==> s == (if h.Config.Some? then h.Config.value.Note else "")
    ensures PropertyOf(i) == Some(DnsRecord) ==> s == h.IpAddress
    ensures HostIsDown(h, now) && PropertyOf(i) == Some(Uptime) ==> s == "[red]down"
    ensures HostIsDown(h, now) && PropertyOf(i) in {Some(Load), Some(Users)} ==> s == ""
    ensures !HostIsDown(h, now) && PropertyOf(i) == Some(Uptime)
            ==> s == FmtDuration(GetUptime(h.Whod.value.Header, now))
    ensures !HostIsDown(h, now) && PropertyOf(i) == Some(Load)
            ==> ParseCents(s) == Some(h.Whod.value.Header.LoadAverage[0] as int)
    ensures !HostIsDown(h, now) && PropertyOf(i) == Some(Users)
            ==> s == UsersLine(h.Whod.value.WhoEntries) && (s == "" <==> |h.Whod.value.WhoEntries| == 0)
  {
    match PropertyOf(i)
    case None => ""
    case Some(p) =>
      match p
      case Hostname => h.Hostname
      case Note => if h.Config.Some? then h.Config.value.Note else ""
      case DnsRecord => h.IpAddress
      case Uptime =>
        if HostIsDown(h, now) then "[red]down" else FmtDuration(GetUptime(h.Whod.value.Header, now))
      case Load =>
        if HostIsDown(h, now) then "" else FormatCents(GetLoadAverage1min(h.Whod.value.Header))
      case Users =>
        if HostIsDown(h, now) then "" else UsersLine(h.Whod.value.WhoEntries)
  }

  /** Host.Value: the text of column i for host h at time now. */
  method Value(h: Host, i: int, now: int) returns (s: string)
    ensures s == ValueOf(h, i, now)
    ensures PropertyOf(i).None? ==> s == ""
    ensures PropertyOf(i) == Some(Hostname) ==> s == h.Hostname
    ensures PropertyOf(i) == Some(Note) ==> s == (if h.Config.Some? then h.Config.value.Note else "")
    ensures PropertyOf(i) == Some(DnsRecord) ==> s == h.IpAddress
    ensures HostIsDown(h, now) && PropertyOf(i) == Some(Uptime) ==> s == "[red]down"
    ensures HostIsDown(h, now) && PropertyOf(i) in {Some(Load), Some(Users)} ==> s == ""
    ensures !HostIsDown(h, now) && PropertyOf(i) == Some(Uptime)
            ==> s == FmtDuration(GetUptime(h.Whod.value.Header, now))
    ensures !HostIsDown(h, now) && PropertyOf(i) == Some(Load)
            ==> ParseCents(s) == Some(h.Whod.value.Header.LoadAverage[0] as int)
    ensures !HostIsDown(h, now) && PropertyOf(i) == Some(Users)
            ==> s == UsersLine(h.Whod.value.WhoEntries) && (s == "" <==> |h.Whod.value.WhoEntries| == 0)
  {
    match PropertyOf(i)
    case None =>
      s := "";
    case Some(p) =>
      match p
      case Hostname =>
        s := h.Hostname;
      case Note =>
        if h.Config.Some? {
          s := h.Config.value.Note;
        } else {
          s := "";
        }
      case DnsRecord =>
        s := h.IpAddress;
      case Uptime =>
        if HostIsDown(h, now) {
          s := "[red]down";
        } else {
          s := FmtDuration(GetUptime(h.Whod.value.Header, now));
        }
      case Load =>
        if HostIsDown(h, now) {
          s := "";
        } else {
          s := FormatCents(GetLoadAverage1min(h.Whod.value.Header));
        }
      case Users =>
        if HostIsDown(h, now) {
          s := "";
        } else {
          s := UsersText(h.Whod.value.WhoEntries);
        }
  }

  // ===========================================================================
  // The host list

  /** slices.IndexFunc with "has this hostname": the first such host's index, or -1. */
  function IndexOf(hosts: seq<Host>, name: string): (i: int)
    ensures -1 <= i < |hosts|
    ensures i == -1 <==> forall j :: 0 <= j < |hosts| ==> hosts[j].Hostname != name
    ensures i != -1 ==> hosts[i].Hostname == name && forall j :: 0 <= j < i ==> hosts[j].Hostname != name
    decreases |hosts|
  {
    if |hosts| == 0 then -1
    else if hosts[0].Hostname == name then 0
    else
      var k := IndexOf(hosts[1..], name);
      if k == -1 then -1 else k + 1
  }

  /** Lists that agree on hostnames over a prefix holding name agree on its first index. */
  lemma IndexOfAgrees(a: seq<Host>, b: seq<Host>, name: string)
    requires |a| <= |b| && forall j :: 0 <= j < |a| ==> a[j].Hostname == b[j].Hostname
    requires IndexOf(a, name) != -1 || (|a| == |b|)
    ensures IndexOf(b, name) == IndexOf(a, name)
  {
    var i, k := IndexOf(a, name), IndexOf(b, name);
    if i != -1 {
      assert b[i].Hostname == name;
      assert k != -1 && k <= i;
      assert a[k].Hostname == name;
    } else {
      assert forall j :: 0 <= j < |b| ==> b[j].Hostname != name;
    }
  }

  predicate UniqueHostnames(hosts: seq<Host>)
  {
    forall i, j :: 0 <= i < j < |hosts| ==> hosts[i].Hostname != hosts[j].Hostname
  }

  /**
   * The merge of one decoded packet into the host list: the first host with
   * the packet's hostname gets it as its Whod; without such a host a new one
   * is appended, with the packet and no configuration.
   */
  function Merged(hosts: seq<Host>, w: Whod, lookup: string -> string): (r: seq<Host>)
    ensures |hosts| <= |r| <= |hosts| + 1
    ensures forall j :: 0 <= j < |hosts| ==>
              r[j].Hostname == hosts[j].Hostname && r[j].Config == hosts[j].Config
              && r[j].IpAddress == hosts[j].IpAddress
    ensures forall j :: |hosts| <= j < |r| ==> r[j].Config.None? && r[j].Hostname == GetHostname(w.Header)
    ensures IndexOf(r, GetHostname(w.Header)) != -1 && r[IndexOf(r, GetHostname(w.Header))].Whod == Some(w)
  {
    var name := GetHostname(w.Header);
    var idx := IndexOf(hosts, name);
    if idx != -1 then
      var r := hosts[idx := hosts[idx].(Whod := Some(w))];
      IndexOfAgrees(hosts, r, name);
      r
    else
      var r := hosts + [NewHost(name, lookup).(Whod := Some(w))];
      assert forall j :: 0 <= j < |hosts| ==> r[j].Hostname != name;
      assert r[|hosts|].Hostname == name;
      r
  }

  /** A known hostname: only that host's Whod changes; length, order and everything else stay. */
  lemma MergedKnown(hosts: seq<Host>, w: Whod, lookup: string -> string)
    requires IndexOf(hosts, GetHostname(w.Header)) != -1
    ensures var r, i := Merged(hosts, w, lookup), IndexOf(hosts, GetHostname(w.Header));
            |r| == |hosts| && r[i].Whod == Some(w)
            && r[i].Hostname == hosts[i].Hostname && r[i].Config == hosts[i].Config
            && r[i].IpAddress == hosts[i].IpAddress
            && forall j :: 0 <= j < |hosts| && j != i ==> r[j] == hosts[j]
  {
  }

  /** An unseen hostname: exactly one host is appended, with the packet and no configuration. */
  lemma MergedUnseen(hosts: seq<Host>, w: Whod, lookup: string -> string)
    requires IndexOf(hosts, GetHostname(w.Header)) == -1
    ensures var r, name := Merged(hosts, w, lookup), GetHostname(w.Header);
            |r| == |hosts| + 1 && r[..|hosts|] == hosts
            && r[|hosts|] == Host(name, Some(w), None, lookup(name))
  {
  }

  /** Merging for another hostname neither moves nor changes the host found for name. */
  lemma MergedOther(hosts: seq<Host>, w: Whod, lookup: string -> string, name: string)
    requires name != GetHostname(w.Header)
    ensures var r := Merged(hosts, w, lookup);
            IndexOf(r, name) == IndexOf(hosts, name)
            && (IndexOf(hosts, name) != -1 ==> r[IndexOf(hosts, name)] == hosts[IndexOf(hosts, name)])
  {
    var r := Merged(hosts, w, lookup);
    if IndexOf(hosts, name) != -1 {
      IndexOfAgrees(hosts, r, name);
    } else if |r| == |hosts| {
      IndexOfAgrees(hosts, r, name);
    } else {
      assert forall j :: 0 <= j < |r| ==> r[j].Hostname != name;
    }
  }

  /** Merging two packets for the same hostname leaves the second: replace, not accumulate. */
  lemma MergedTwice(hosts: seq<Host>, w1: Whod, w2: Whod, lookup: string -> string)
    requires GetHostname(w1.Header) == GetHostname(w2.Header)
    ensures Merged(Merged(hosts, w1, lookup), w2, lookup) == Merged(hosts, w2, lookup)
  {
    if IndexOf(hosts, GetHostname(w1.Header)) != -1 {
      MergedTwiceKnown(hosts, w1, w2, lookup);
    } else {
      MergedTwiceUnseen(hosts, w1, w2, lookup);
    }
  }

  lemma MergedTwiceKnown(hosts: seq<Host>, w1: Whod, w2: Whod, lookup: string -> string)
    requires GetHostname(w1.Header) == GetHostname(w2.Header)
    requires IndexOf(hosts, GetHostname(w1.Header)) != -1
    ensures Merged(Merged(hosts, w1, lookup), w2, lookup) == Merged(hosts, w2, lookup)
  {
    var name := GetHostname(w1.Header);
    var r1 := Merged(hosts, w1, lookup);
    var idx := IndexOf(hosts, name);
    assert r1 == hosts[idx := hosts[idx].(Whod := Some(w1))];
    IndexOfAgrees(hosts, r1, name);
    assert r1[idx := r1[idx].(Whod := Some(w2))] == hosts[idx := hosts[idx].(Whod := Some(w2))];
  }

  lemma MergedTwiceUnseen(hosts: seq<Host>, w1: Whod, w2: Whod, lookup: string -> string)
    requires GetHostname(w1.Header) == GetHostname(w2.Header)
    requires IndexOf(hosts, GetHostname(w1.Header)) == -1
    ensures Merged(Merged(hosts, w1, lookup), w2, lookup) == Merged(hosts, w2, lookup)
  {
    var name := GetHostname(w1.Header);
    var h := NewHost(name, lookup);
    var r1 := hosts + [h.(Whod := Some(w1))];
    assert Merged(hosts, w1, lookup) == r1;
    assert forall j :: 0 <= j < |hosts| ==> r1[j].Hostname != name;
    assert r1[|hosts|].Hostname == name;
    var n := |hosts|;
    assert IndexOf(r1, name) == n;
    assert r1[n := r1[n].(Whod := Some(w2))] == hosts + [h.(Whod := Some(w2))];
    assert Merged(hosts, w2, lookup) == hosts + [h.(Whod := Some(w2))];
  }

  /** Hostnames that were unique before a merge are unique after it. */
  lemma MergedUnique(hosts: seq<Host>, w: Whod, lookup: string -> string)
    requires UniqueHostnames(hosts)
    ensures UniqueHostnames(Merged(hosts, w, lookup))
  {
  }

  /**
   * The merges, in order, of a sequence of packets. Merging keeps the given
   * hosts in place, with their names, configuration and addresses; appended
   * hosts have no configuration.
   */
  function MergeAll(hosts: seq<Host>, ws: seq<Whod>, lookup: string -> string): (r: seq<Host>)
    ensures |hosts| <= |r| <= |hosts| + |ws|
    ensures forall j :: 0 <= j < |hosts| ==>
              r[j].Hostname == hosts[j].Hostname && r[j].Config == hosts[j].Config
              && r[j].IpAddress == hosts[j].IpAddress
    ensures forall j :: |hosts| <= j < |r| ==> r[j].Config.None?
    decreases |ws|
  {
    if |ws| == 0 then hosts else Merged(MergeAll(hosts, ws[..|ws| - 1], lookup), ws[|ws| - 1], lookup)
  }

  /** Hostnames unique before all the merges are unique after them. */
  lemma {:induction false} MergeAllUnique(hosts: seq<Host>, ws: seq<Whod>, lookup: string -> string)
    requires UniqueHostnames(hosts)
    ensures UniqueHostnames(MergeAll(hosts, ws, lookup))
    decreases |ws|
  {
    if |ws| > 0 {
      MergeAllUnique(hosts, ws[..|ws| - 1], lookup);
      MergedUnique(MergeAll(hosts, ws[..|ws| - 1], lookup), ws[|ws| - 1], lookup);
    }
  }

  /** Last packet wins: the host named like packet k carries it when no later packet has that name. */
  lemma {:induction false} MergeAllLastWins(hosts: seq<Host>, ws: seq<Whod>, lookup: string -> string, k: nat)
    requires k < |ws|
    requires forall j :: k < j < |ws| ==> GetHostname(ws[j].Header) != GetHostname(ws[k].Header)
    ensures var r, name := MergeAll(hosts, ws, lookup), GetHostname(ws[k].Header);
            IndexOf(r, name) != -1 && r[IndexOf(r, name)].Whod == Some(ws[k])
    decreases |ws|
  {
    var n := |ws| - 1;
    var prev := MergeAll(hosts, ws[..n], lookup);
    if k == n {
    } else {
      MergeAllLastWins(hosts, ws[..n], lookup, k);
      assert ws[..n][k] == ws[k];
      MergedOther(prev, ws[n], lookup, GetHostname(ws[k].Header));
    }
  }

  /** The host built from one configuration entry. */
  function ConfigHost(entry: ConfigHostEntry, lookup: string -> string): Host
  {
    NewHost(entry.Hostname, lookup).(Config := Some(entry))
  }

  function ConfigHosts(config: seq<ConfigHostEntry>, lookup: string -> string): seq<Host>
  {
    seq(|config|, i requires 0 <= i < |config| => ConfigHost(config[i], lookup))
  }

  /** The configuration loop: one host per entry, in order, with its entry and no packet. */
  method HostsFromConfig(config: seq<ConfigHostEntry>, lookup: string -> string) returns (hosts: seq<Host>)
    ensures |hosts| == |config|
    ensures forall i :: 0 <= i < |config| ==>
              hosts[i].Hostname == config[i].Hostname && hosts[i].Config == Some(config[i])
              && hosts[i].Whod.None? && hosts[i].IpAddress == lookup(config[i].Hostname)
    ensures hosts == ConfigHosts(config, lookup)
  {
    hosts := [];
    for i := 0 to |config|
      invariant hosts == ConfigHosts(config[..i], lookup)
    {
      var h := NewHost(config[i].Hostname, lookup);
      h := h.(Config := Some(config[i]));
      hosts := hosts + [h];
    }
    assert config[..|config|] == config;
  }

  /** The start-up loop over the scanned packets: each is merged into the list in turn. */
  method MergeWhods(hosts: seq<Host>, ws: seq<Whod>, lookup: string -> string) returns (r: seq<Host>)
    ensures r == MergeAll(hosts, ws, lookup)
  {
    r := hosts;
    for i := 0 to |ws|
      invariant r == MergeAll(hosts, ws[..i], lookup)
    {
      assert ws[..i + 1][..i] == ws[..i];
      r := Merged(r, ws[i], lookup);
    }
    assert ws[..|ws|] == ws;
  }

  /** The configured hosts come first, in order and with their entries; the hosts after them have none. */
  predicate ConfiguredFirst(hosts: seq<Host>, config: seq<ConfigHostEntry>)
  {
    |config| <= |hosts|
    && (forall i :: 0 <= i < |config| ==>
          hosts[i].Hostname == config[i].Hostname && hosts[i].Config == Some(config[i]))
    && (forall i :: |config| <= i < |hosts| ==> hosts[i].Config.None?)
  }

  /** Merging packets into the configured hosts keeps them first, in order and with their entries. */
  lemma MergeAllOverConfig(config: seq<ConfigHostEntry>, ws: seq<Whod>, lookup: string -> string)
    ensures ConfiguredFirst(MergeAll(ConfigHosts(config, lookup), ws, lookup), config)
  {
  }

  /**
   * Start-up: the configured hosts, then every spool packet merged in order.
   * A spool file that does not decode makes the source exit; here it is the
   * Failure outcome.
   */
  method InitialHosts(config: seq<ConfigHostEntry>, spool: seq<seq<byte>>, lookup: string -> string)
    returns (r: Result<seq<Host>>)
    ensures r.Failure? <==> exists i :: 0 <= i < |spool| && |spool[i]| < HeaderSize
    ensures r.Success? ==> DecodeAll(spool).Success? && r.value == MergeAll(ConfigHosts(config, lookup), DecodeAll(spool).value, lookup)
    ensures r.Success? ==> ConfiguredFirst(r.value, config)
  {
    var hosts := HostsFromConfig(config, lookup);
    var whods := ScanHosts(spool);
    if whods.Failure? {
      return Failure(whods.error);
    }
    hosts := MergeWhods(hosts, whods.value, lookup);
    MergeAllOverConfig(config, whods.value, lookup);
    r := Success(hosts);
  }

  // ===========================================================================
  // The grid

  datatype Alignment = AlignLeft | AlignCenter | AlignRight
  datatype Color = ColorDefault | ColorPrimaryText | ColorBlack | ColorWhite
  datatype Attr = AttrNone | AttrBold | AttrDim

  /** The parts of a tview.TableCell the program sets. */
  datatype Cell = Cell(Text: string, Align: Alignment, Selectable: bool, TextColor: Color,
                       BackgroundColor: Color, Attributes: Attr, Expansion: int)

  /** tview.NewTableCell(""). */
  function EmptyCell(): Cell
  {
    Cell("", AlignLeft, true, ColorPrimaryText, ColorDefault, AttrNone, 0)
  }

  /** TableData: the host list the table is drawn from. */
  class TableData {
    var Hosts: seq<Host>

    constructor (hosts: seq<Host>)
      ensures Hosts == hosts
    {
      Hosts := hosts;
    }

    /** One title row, then one row per host. */
    function GetRowCount(): (n: int)
      reads this
      ensures n == |Hosts| + 1
    {
      |Hosts| + 1
    }

    /** One column per host property. */
    function GetColumnCount(): (n: int)
      ensures n == HostPropertyCount
    {
      HostPropertyCount
    }

    /**
     * GetCell: the cell at (row, column). Only the upper bounds are checked, as
     * in the source; a negative row would index out of range there.
     */
    method GetCell(row: int, column: int, now: int) returns (c: Cell)
      requires row >= 0
      ensures row >= GetRowCount() || column >= GetColumnCount() ==> c == EmptyCell()
      ensures row < GetRowCount() && column < GetColumnCount() ==>
                c.Text == Surround(if row == 0 then PropertyString(column)
                                   else ValueOf(Hosts[row - 1], column, now), " ")
                && (c.Align == AlignRight <==> PropertyOf(column) in {Some(Uptime), Some(Load)})
                && c.Align != AlignCenter
                && c.Expansion == (if PropertyOf(column) == Some(Users) then 1 else 0)
      ensures row == 0 && column < GetColumnCount() ==>
                !c.Selectable && c.Attributes == AttrBold
                && c.TextColor == ColorBlack && c.BackgroundColor == ColorWhite
      ensures 0 < row < GetRowCount() && column < GetColumnCount() ==>
                c.Selectable && c.TextColor == ColorPrimaryText && c.BackgroundColor == ColorDefault
                && c.Attributes == (if HostIsDown(Hosts[row - 1], now) then AttrDim else AttrNone)
    {
      c := EmptyCell();
      if row >= GetRowCount() {
        return;
      }
      if column >= GetColumnCount() {
        return;
      }
      var cellText := "";
      if row == 0 {
        cellText := PropertyString(column);
      } else {
        var host := Hosts[row - 1];
        cellText := Value(host, column, now);
      }
      c := c.(Text := Surround(cellText, " "));
      if row == 0 {
        c := c.(Selectable := false);
        c := c.(TextColor := ColorBlack);
        c := c.(BackgroundColor := ColorWhite);
        c := c.(Attributes := AttrBold);
      } else {
        if Hosts[row - 1].Whod.Some? {
          if IsDown(Hosts[row - 1].Whod.value.Header, now) {
            c := c.(Attributes := AttrDim);
          }
        } else {
          c := c.(Attributes := AttrDim);
        }
      }
      match PropertyOf(column)
      case Some(Hostname) =>
        c := c.(Align := AlignLeft);
      case Some(Note) =>
        c := c.(Align := AlignLeft);
      case Some(DnsRecord) =>
        c := c.(Align := AlignLeft);
      case Some(Uptime) =>
        c := c.(Align := AlignRight);
      case Some(Load) =>
        c := c.(Align := AlignRight);
      case Some(Users) =>
        c := c.(Align := AlignLeft);
        c := c.(Expansion := 1);
      case None =>
    }

    /** The inline merge of one packet into data.Hosts. */
    method MergeWhod(w: Whod, lookup: string -> string)
      modifies this
      ensures Hosts == Merged(old(Hosts), w, lookup)
    {
      var name := GetHostname(w.Header);
      var idx := IndexOf(Hosts, name);
      if idx != -1 {
        Hosts := Hosts[idx := Hosts[idx].(Whod := Some(w))];
      } else {
        var h := NewHost(name, lookup);
        h := h.(Whod := Some(w));
        Hosts := Hosts + [h];
      }
    }

    /**
     * The handler for a changed spool file, given its contents: decode, then
     * merge. On a decode failure the source exits the process; here ok is
     * false and the host list is untouched.
     */
    method OnPacketChanged(contents: seq<byte>, lookup: string -> string) returns (ok: bool)
      modifies this
      ensures ok <==> |contents| >= HeaderSize
      ensures ok ==> Hosts == Merged(old(Hosts), DecodeWhod(contents).value, lookup)
      ensures !ok ==> Hosts == old(Hosts)
    {
      var whod := ParseWhod(contents);
      if whod.Failure? {
        return false;
      }
      MergeWhod(whod.value, lookup);
      ok := true;
    }
  }
}
