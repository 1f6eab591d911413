# trwho in Dafny

trwho is a terminal viewer for the BSD rwho spool. The rwhod daemon leaves one
packet file per host in `/var/spool/rwho`, named `whod.<host>`. Each file
is a `struct whod`: a 60-byte header followed by zero or more 24-byte session
entries, with every integer stored little-endian. trwho works in three steps:

- It builds a host list from an optional configuration (hostname and note per
  host).
- It merges every decoded spool packet into that list by hostname.
- It shows one table row per host: hostname, note, DNS record, uptime,
  1-minute load and the logged-in users with their idle times. A host whose
  last packet is more than ten minutes old, or that has no packet, is shown as
  down.

This project models the following parts of trwho and proves properties about
them:

- the packet decoder;
- the values derived from a header and an entry;
- the display value of each column;
- the merge of packets into the host list;
- the read-only grid the table is drawn from (cell text, alignment, colours,
  attributes).

Files:

- `binary.dfy` (module `Binary`): little-endian `int32` and the
  all-or-nothing reads of Go's `encoding/binary`.
- `go.dfy` (module `Go`): the Go semantics the program relies on:
  - truncating `/` and `%`;
  - saturating `time.Time.Sub`;
  - `Duration.Round(time.Minute)`;
  - `%d`, `%02d` and `%1.2f`;
  - `strings.TrimSpace` with Unicode white space.
- `rwho.dfy` (module `Rwho`): package `rwho`: the header and entry layouts,
  the getters, `IsDown`, and the decoders `ParseWhod`, `ReadWhod` and
  `ScanHosts`.
- `main.dfy` (module `Trwho`): package `main`: `HostProperty`, `Host`,
  `Host.Value`, `fmtDuration`, the host-list merge, and `TableData`.

Some inputs become parameters:

- Files are given by their contents (`seq<byte>`).
- The spool is the sequence of file contents, in the order the glob returns
  their paths.
- The wall clock is `now`, in nanoseconds since the Unix epoch.
- DNS resolution is a function `lookup` from hostname to address, with `""`
  where the lookup fails.
- A Go string is a `string` with one character per byte.

On errors the source behaves as follows, and the model follows it:

- `ScanHosts` stops at the first spool file that fails to decode and returns
  only that error, with no partial list. It does not skip the bad file and go
  on (`Rwho.ScanHosts`).
- When a changed spool file fails to decode, the packet handler exits the
  process instead of skipping the file. `Trwho.TableData.OnPacketChanged`
  models this as `ok == false` with the host list unchanged.
- A short header is the only decoding error. A trailing partial entry is
  dropped silently, so an entry count of `(len - 60) / 24` is always accepted.

## Model

| member | source | states |
|---|---|---|
| Binary.LeInt32 | rwho/WhodHeader.go:8-17 | a little-endian int32 field is negative exactly when the top bit of its last byte is set, and its low byte is the first byte |
| Binary.Int32RoundTrip | rwho/WhodHeader.go:8-17 | decoding the 4-byte little-endian two's-complement layout of an int32 field gives the int32 back |
| Binary.Bytes4RoundTrip | rwho/WhodHeader.go:8-17 | every 4 bytes are the layout of the int32 decoded from them, so the int32 coding is a bijection |
| Binary.ReadFull | rwho/Misc.go:21-31 | binary.Read of an n-byte record succeeds iff n bytes remain and then yields exactly the next n bytes; otherwise EOF iff no byte remains, UnexpectedEOF else |
| Go.Sub | rwho/WhodHeader.go:43-45 | time.Since is now - t when that fits an int64 Duration, and saturation never changes its sign or which side of 600 s it lies on |
| Go.RoundMinuteNonNegative | main.go:214-215 | for every non-negative duration, Round(time.Minute) is the nearest whole minute, halves up; it never saturates |
| Go.Digits | main.go:218 | %d prints at least one decimal digit, with no leading zero exactly when the number is positive |
| Go.DigitsRoundTrip | main.go:218 | the decimal digits printed for n read back as n |
| Go.CentsRoundTrip | main.go:101 | %1.2f of a load average of x hundredths prints text that reads back as exactly x hundredths (sign, whole part, two decimals) |
| Go.LeadingSpaceStopsAtAt | main.go:107-113 | leading white space of a text ends before its first '@', and appending text after it does not change it |
| Go.TrimSpaceOfSpaced | main.go:113 | TrimSpace of a token text followed by the loop's trailing space removes exactly that space and the text's leading white space, and leaves a non-empty text ending in ')' |
| Rwho.FieldString | rwho/Misc.go:10-19 | a field's text consists of the bytes before the first NUL, or the whole field when it holds no NUL; it is never longer than the field |
| Rwho.FieldStringIsNulFreePrefix | rwho/Misc.go:10-19 | the text of a field is the string of a prefix of it and contains no NUL |
| Rwho.FieldStringIdempotent | rwho/Misc.go:10-19 | cutting a field's text again at its own length changes nothing |
| Rwho.BytesToString | rwho/Misc.go:10-19 | the scanning loop with its break returns exactly the text before the first NUL |
| Rwho.EncodeHeader | rwho/WhodHeader.go:8-17 | the header layout is 60 bytes |
| Rwho.DecodeHeader | rwho/Misc.go:27-31 | every 60 bytes are the layout of the header decoded from them (fields at offsets 0, 1, 2, 4, 8, 12, 44, 48, 52, 56, laid out as in rwho/WhodHeader.go:8-17) |
| Rwho.HeaderRoundTrip | rwho/WhodHeader.go:8-17 | decoding the layout of a header gives every field back |
| Rwho.GetSendTime | rwho/WhodHeader.go:19-21 | the send time is Sendtime whole seconds after the epoch |
| Rwho.GetRecvTime | rwho/WhodHeader.go:22-24 | the receive time is Recvtime whole seconds after the epoch |
| Rwho.GetBootTime | rwho/WhodHeader.go:25-27 | the boot time is Boottime whole seconds after the epoch |
| Rwho.GetUptime | rwho/WhodHeader.go:28-30 | the uptime is now minus the boot time whenever that fits a Duration |
| Rwho.GetHostname | rwho/WhodHeader.go:31-33 | the hostname is at most 32 bytes, NUL-free, and is the string of a prefix of the Hostname field |
| Rwho.GetLoadAverage1min | rwho/WhodHeader.go:34-36 | the 1-minute load in hundredths: its two-decimal text reads back as exactly the first LoadAverage field |
| Rwho.GetLoadAverage5min | rwho/WhodHeader.go:37-39 | the 5-minute load in hundredths: its two-decimal text reads back as exactly the second LoadAverage field |
| Rwho.GetLoadAverage15min | rwho/WhodHeader.go:40-42 | the 15-minute load in hundredths: its two-decimal text reads back as exactly the third LoadAverage field |
| Rwho.IsDown | rwho/WhodHeader.go:43-45 | a header is down exactly when now is strictly more than 600 s after its send time, despite Sub's saturation |
| Rwho.IsDownBoundary | rwho/WhodHeader.go:43-45 | a packet 599 s or 600 s old is up and one 601 s old is down |
| Rwho.IsDownMonotone | rwho/WhodHeader.go:43-45 | once down, a header stays down at every later time |
| Rwho.TimeFieldsIndependent | rwho/WhodHeader.go:25-45 | down status depends only on Sendtime and uptime only on Boottime |
| Rwho.EncodeEntry | rwho/WhoEntry.go:8-13 | the entry layout is 24 bytes |
| Rwho.DecodeEntry | rwho/Misc.go:21-25 | every 24 bytes are the layout of the entry decoded from them (Tty, User, LoginTime, IdleTime at offsets 0, 8, 16, 20, laid out as in rwho/WhoEntry.go:8-13) |
| Rwho.EntryRoundTrip | rwho/WhoEntry.go:8-13 | decoding the layout of an entry gives every field back |
| Rwho.GetUser | rwho/WhoEntry.go:15-17 | the user name is at most 8 bytes, NUL-free, and is the string of a prefix of the User field |
| Rwho.GetTty | rwho/WhoEntry.go:18-20 | the terminal name is at most 8 bytes, NUL-free, and is the string of a prefix of the Tty field |
| Rwho.GetLoginTime | rwho/WhoEntry.go:21-23 | the login time is LoginTime whole seconds after the epoch |
| Rwho.GetIdleTime | rwho/WhoEntry.go:24-26 | the idle time is IdleTime whole seconds, with no int64 overflow |
| Rwho.ParseWhodHeader | rwho/Misc.go:27-31 | reading a header succeeds iff 60 bytes remain, consumes exactly them and yields the header whose layout they are; EOF iff nothing remains |
| Rwho.ParseWhoEntry | rwho/Misc.go:21-25 | reading an entry succeeds iff 24 bytes remain, consumes exactly them and yields the entry whose layout they are; EOF iff nothing remains |
| Rwho.DecodeEntriesLength | rwho/Misc.go:68-74 | the bytes after the header hold exactly len/24 entries |
| Rwho.DecodeEntriesAt | rwho/Misc.go:68-74 | entry k is decoded from bytes 24k to 24k+23 after the header, so entries keep packet order |
| Rwho.EntriesDetermined | rwho/Misc.go:68-74 | a list that agrees with every 24-byte record is the decoded entry list |
| Rwho.ReadEntries | rwho/Misc.go:47-54 | the read-until-error loop collects exactly (len-60)/24 entries, entry k from its own record, dropping a trailing partial record |
| Rwho.ParseWhod | rwho/Misc.go:59-77 | decoding fails iff the data is shorter than a header (EOF iff empty); on success the header and every entry have exactly their bytes as layout, with (len-60)/24 entries |
| Rwho.ReadWhod | rwho/Misc.go:33-57 | ReadWhod yields ParseWhod's header and entries and fails exactly when it fails, with the same error |
| Rwho.DecodeEach | rwho/Misc.go:94-95 | one decoding outcome per spool file, outcome i from file i |
| Rwho.CollectSucceeds | rwho/Misc.go:94-101 | the loop's outcome is a success iff every file's decoding succeeds |
| Rwho.CollectValues | rwho/Misc.go:94-101 | a successful loop returns one packet per file, in file order, each the one decoded from its file |
| Rwho.CollectFirstFailure | rwho/Misc.go:95-98 | a failed loop returns the error of a failing file before which every file decoded |
| Rwho.CollectFrom | rwho/Misc.go:94-100 | going on from file i gives file i's error, or file i's packet in front of what the rest gives |
| Rwho.ScanOutcome | rwho/Misc.go:88-102 | the reference scan succeeds iff every file holds a header, with packet i decoded from file i; otherwise it returns EOF or UnexpectedEOF for the first file that holds none, as that file is empty or cut short |
| Rwho.ScanHosts | rwho/Misc.go:88-102 | the loop with its early return gives the reference scan: success iff every file holds a header, with packet i decoded from file i; otherwise EOF or UnexpectedEOF for the first file that holds none, and no partial list |
| Trwho.PropertyOf | main.go:23-33 | exactly the integers 0..5 name a column |
| Trwho.PropertyString | main.go:35-52 | a column's title is empty exactly for integers that name no column |
| Trwho.NewHost | main.go:61-70 | a new host has the name, no packet, no configuration and the lookup's address |
| Trwho.HostIsDown | main.go:72-77 | a host is down exactly when it has no packet or its packet was sent strictly more than 600 s before now |
| Trwho.HostIsDownMonotone | main.go:72-77 | a host with no packet is down, and a down host stays down as time passes |
| Trwho.ClockTextOf | main.go:218 | "%d:%02d" of a non-negative hour count and a minute count below 60 is decimal hours, ':', and two digits with the first at most 5 |
| Trwho.FmtDuration | main.go:214-219 | every non-negative duration prints as decimal hours, ':', and two minute digits 00..59 |
| Trwho.FmtDurationNonNegative | main.go:214-219 | every non-negative duration prints as H:MM, with MM two digits 00..59 and H*60+MM the duration rounded to the nearest minute, halves up |
| Trwho.Surround | main.go:221-223 | the text sits between one copy of the pad on each side |
| Trwho.UsersLine | main.go:103-115 | the Users text of a live host is empty exactly when the packet has no entries; otherwise it ends with the last token's ')'; it is always a tail of the single-spaced token list |
| Trwho.UsersLineIsJoin | main.go:107-113 | when the first user name does not start with white space, the Users text is the user@tty(idle) tokens joined by single spaces |
| Trwho.UsersText | main.go:107-114 | the append loop followed by TrimSpace yields the single-spaced token list with only leading white space trimmed; it is empty iff there are no entries |
| Trwho.ValueOf | main.go:79-119 | per column: name, note or "", address; for a down host "[red]down", "" and ""; for a live host its uptime, a load text that reads back as the 1-minute load, and the Users text, empty iff there are no entries; "" for any other integer |
| Trwho.Value | main.go:79-119 | per column: name, note or "", address; for a down host "[red]down", "" and ""; for a live host its uptime, a load text that reads back as the 1-minute load, and the Users text; "" for any other integer |
| Trwho.IndexOf | main.go:250-252 | the index of the first host with the name, or -1 exactly when no host has it |
| Trwho.Merged | main.go:249-260 | a merge keeps every existing host's name, configuration and address, appends at most one host, unconfigured and with the packet's name, and afterwards the packet's hostname is found and its host carries that packet |
| Trwho.MergedKnown | main.go:253-254 | merging a packet for a listed hostname replaces only that host's packet; length, order, names, configuration and addresses stay |
| Trwho.MergedUnseen | main.go:255-259 | merging a packet for an unseen hostname appends one host with the packet, no configuration and the looked-up address |
| Trwho.MergedOther | main.go:249-260 | a merge for another hostname neither moves nor changes the host found for a name |
| Trwho.MergedTwice | main.go:249-260 | two packets for the same hostname leave the second: replace, never accumulate |
| Trwho.MergedUnique | main.go:249-260 | merging keeps hostnames unique |
| Trwho.MergeAll | main.go:249-260 | merging all packets in order keeps every existing host's name, configuration and address in place and appends at most one host per packet, each without configuration |
| Trwho.MergeAllUnique | main.go:249-260 | merging all packets keeps hostnames unique |
| Trwho.MergeAllLastWins | main.go:249-260 | the host with a packet's name carries that packet when no later packet has the same name |
| Trwho.MergeWhods | main.go:249-260 | the start-up loop leaves the list equal to the packets merged one by one, in order |
| Trwho.MergeAllOverConfig | main.go:236-260 | after all spool packets are merged into the configured hosts, those hosts stay first, in order and with their entries, and every appended host has none |
| Trwho.HostsFromConfig | main.go:236-240 | one host per configuration entry, in order, with its entry, no packet and the looked-up address |
| Trwho.InitialHosts | main.go:226-260 | start-up fails iff some spool file is shorter than a header; otherwise the configured hosts with every packet merged in order, configured hosts first and keeping their configuration |
| Trwho.TableData.constructor | main.go:274 | the table is drawn from the given host list |
| Trwho.TableData.GetRowCount | main.go:206-208 | one title row plus one row per host |
| Trwho.TableData.GetColumnCount | main.go:210-212 | one column per host property |
| Trwho.TableData.GetCell | main.go:152-204 | an empty cell past the last row or column; otherwise the padded title or value; bold black-on-white non-selectable titles; dim iff the host is down; right-aligned exactly for Uptime and Load; only Users expands |
| Trwho.TableData.MergeWhod | main.go:308-317 | the packet handler's in-place merge leaves the host list equal to the merge of the packet into the old list |
| Trwho.TableData.OnPacketChanged | main.go:300-317 | a changed spool file that decodes is merged into the list; one that does not leaves the list unchanged |

## Left out

- Reading the configuration file (`ReadConfig`, the XDG search, JSON decoding in `config.go` and `main.go`): file I/O and JSON parsing. The model starts from the decoded entries.
- Opening, closing and globbing files (`os.Open`, `filepath.Glob`): I/O. A file is its contents, and the spool is the list of their contents in glob order. A file that cannot be opened is not modelled.
- fsnotify watching, the goroutines, the once-a-second redraw and `QueueUpdateDraw`: concurrency and the UI event loop. `OnPacketChanged` models one event as a single step. That atomicity is an assumption of the model: in the source the watcher goroutine updates `data.Hosts` with no lock while the draw reads it through `GetCell` (main.go:297-317).
- The tview/tcell application, frame, key bindings and selection style: UI. Colours and attributes are the enums `Color` and `Attr`, limited to the values the program sets.
- `net.LookupHost`: DNS. It is the `lookup` parameter, which yields the first address or `""`.
- `log` output and `os.Exit`: the exits become `Failure` results (`InitialHosts`) or `ok == false` (`OnPacketChanged`).
- Rwho.GetLoadAverage1min, Rwho.GetLoadAverage5min, Rwho.GetLoadAverage15min: they return the raw hundredths instead of a float64 divided by 100, because floating point is not modelled. `%1.2f` of the quotient is modelled as the exact two-decimal rendering, which is what it prints for every int32; the getters' contracts state that this text reads back as the field.
- Rwho.GetUptime, Trwho.ValueOf: one `now` is used for a whole call. The source reads the clock separately for `IsDown` and `GetUptime`.
- Pointer identity of `*Host` and `*Whod`: hosts are values. The source never shares one host between two list entries, so assigning a packet to `hosts[idx]` is modelled as a functional update.
- The `Whod` struct's shape, a header and a list of entries, is taken from how `ParseWhod` fills it.
- Trwho.FmtDurationNonNegative: it states the printed form only for non-negative durations. A negative duration (a boot time in the future) prints as Go does, with `%02d` leaving a negative minute count unpadded (for example "0:-5"), but this is not stated as a lemma.
