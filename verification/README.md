# rusty-castle: verified models of its protocol and media cores

rusty-castle is a UPnP media server. This project models, in Dafny 4.11, the parts of it that other
devices rely on, and proves what they rely on:

- **SSDP** (UPnP Device Architecture 1.1, sections 1.2.2, 1.2.3, 1.3.2 and 1.3.3): the two sans-IO state
  machines, their timer queue, cache and arena, and the parser and encoders of their messages.
- **MP4 durations** (ISO/IEC 14496-12, sections 4.2 and 8.2.2): the box walker and the printed duration.
- **Calendar arithmetic**: day numbers to dates in log timestamps.
- **The media library**: directory scan, flat catalog and Browse.
- **SOAP** (UPnP Device Architecture 1.1, section 3): the response writer and the substring-scanning parser.
- **Byte ranges** (RFC 7233, sections 2.1 and 4.2): parsing, applying and serving them.

`dafny verify dfyconfig.toml` checks everything.

## How it is put together

| modules | what they hold |
|---|---|
| `Wrappers`, `Text`, `Http` | options and results; octet strings, trimming, decimals, UTF-8; header lines (RFC 7230, section 3.2) |
| `Target`, `Fields`, `Messages` | targets, USNs, header fields and messages: their text, their parsers, their well-formedness |
| `Encode`, `Parse` | the encoders over a bounded cursor and the header folds, as loops and sequential writes |
| `MessageRoundTrip`, `ParserImage` | printing and parsing are inverse, exactly on well-formed messages |
| `HeaderMeaning`, `WireText` | what any datagram means, by the names of its headers; the messages octet for octet |
| `Timers`, `Cache` | the fixed-slot timer queue and the bounded expiring table: classes, and what they mean |
| `DeviceSpec`, `Device` | the device as a transition system, and the object whose methods take its steps |
| `DeviceBounds`, `DeviceRuns`, `Wire` | octet counts and reachable-state invariants; whole runs; what a listener reads |
| `ControlPointSpec`, `ControlPoint`, `ControlPointRuns` | the same three layers for the control point |
| `DeviceBehaviour`, `ControlPointBehaviour` | what each machine does on every input, field by field, in the terms of those around it |
| `Protocol`, `Deployment` | the two machines talking to each other; the server's own device as an instance |
| `Mp4` | big-endian numbers, boxes as trees, the walk by offsets, the clock text |
| `Calendar` | the Gregorian calendar, the closed formula, timestamps |
| `Scan`, `Catalog`, `Library` | directory trees and their flat form, Browse, and the recovery of the one from the other |
| `ScanBehaviour` | what names, identifiers and listed fields are; the root and videos |
| `Xml`, `Soap`, `SoapRoundTrip` | escaping, writer and parser, and what the parser makes of what the writer wrote |
| `SoapRequest` | what the parser makes of requests that others write |
| `Ranges` | ranges, planned responses, a resuming client |

Every object of the source that updates its fields is a class here. Its methods equate the new abstract
state (`State()`, `entries[..]`, `entries`, `text`, `rest`) with a function of the old one, and the theorems
are about those functions and their runs; the `Behaviour` modules, `HeaderMeaning`, `WireText` and `SoapRequest`
state what these functions do without naming their parts. Octet strings are `seq<char>` with one character per octet.
Instants and durations are natural numbers of nanoseconds.

## Hypotheses that carry weight

- `Protocol.NoServiceExpires`: max-ages of at least one second and below 2^32 seconds, a printable
  configuration, and nothing later than `late` after a deadline. It speaks of the targets that find a place
  in a round: `DeviceBounds.AllPlaced` says when these are all, `DeviceBounds.FourArePlaced` that they are
  for up to four targets, and `Deployment.ServerDeviceQualifies` for the server's own five.
  `Protocol.SlackIsPositive` shows that `late` may always be something;
  `Deployment.ServerServicesNeverExpire` carries the theorem to the server's own device, where only
  lateness, fairness and five free places remain to be asked.
- `ControlPointRuns.NoExpiryIsMissed` and `CacheMirrorsLog`: every announced max-age is positive.
  `HearKeepsGuardExactly` gives the exact condition for one datagram and `ZeroAgeLingers` what happens otherwise.
- `Library.BrowsingRecoversTree`: names are unique within each directory and the 64-bit hashes of the
  directory paths of this tree are distinct; fewer than 2^32 objects. `Library.MetadataIsWhatIsShown` asks in
  addition that the hashes of the media paths are distinct.
- `SoapRoundTrip`: element names are free of markup, white space and colons, and the service URN is free of
  quotes and angle brackets; all other conditions are part of the equivalences.

## Where code and documentation disagree

The model follows the code.

- `INITIAL_ALIVE_COUNT` (crates/ssdp-core/src/consts.rs:44-45) promises three announcements of each target at
  startup. The countdown in crates/ssdp-core/src/state/device.rs:236-241 stops at the first counter that has
  not run out, so n targets are announced 2n+1 times each; the two agree only for a single target.
- crates/ssdp-core/src/consts.rs:38-39 says that larger MX values are clamped; crates/ssdp-core/src/header/mx.rs:13-15
  rejects them.
- crates/ssdp-core/src/state/control_point.rs:245 says that a long USN is truncated; each piece that does not
  fit is left out whole and later pieces may still be added.
- crates/ssdp-core/src/state/control_point.rs:92 promises retransmissions of a search; the timer only counts.
- A search sends the caller's MX as it is and clamps only its own timer
  (crates/ssdp-core/src/state/control_point.rs:95-96).
- A range whose last position precedes its first is answered with 416 (crates/media-http/src/range.rs:72-74).
  Section 2.1 of RFC 7233 calls such a range invalid, to be ignored.

## Model

| member | source | states |
|---|---|---|
| `Protocol.NoServiceExpires` | crates/ssdp-core/src/state/device.rs:233-312 | Composed safety. Any configured, registered and started device, any control point with room for the targets it announces: from the first round on, whatever searches, foreign datagrams, events and early or late wake-ups interleave, every target that finds a place in a round is cached, unexpired, and at one of `places` (any set of locations holding the device's own and all that strangers give for it), provided no step comes more than `late` after a deadline, strangers neither withdraw nor shorten those entries, and the longest gap between rounds plus `late` is below the smallest whole-second max-age |
| `Protocol.StepKeeps` | crates/ssdp-core/src/state/control_point.rs:104-185 | One fair step of either machine keeps every announced entry cached, at one of `places`, past the device's next deadline plus the allowed lateness |
| `Protocol.SlackIsPositive` | crates/ssdp-core/src/state/device.rs:263-276 | For max-ages of at least one second and below 2^32 seconds, half the smallest max-age and the 199 ms burst gap are both strictly below its whole seconds on the wire, so some lateness is always tolerable |
| `Protocol.RoundHeard` | crates/ssdp-core/src/state/device.rs:204-215 | A round drained newest first and heard at once files every target under the device's location for at least its whole-second max-age, in a table that has room or knows them already |
| `Protocol.ExchangeHarmless` | crates/ssdp-core/src/state/control_point.rs:104-156 | Draining datagrams that neither withdraw a key, promise it less than `w` nor put it outside `places` empties the outbox and leaves every key held |
| `Protocol.FarewellForgets` | crates/ssdp-core/src/state/device.rs:153-162 | A shutdown with nothing pending, heard to the end, removes exactly the device's keys from the control point's cache and changes nothing else there |
| `Deployment.ServerDeviceQualifies` | crates/rusty-castle/src/runtime.rs:1058-1096 | All five announcements of the server's own device, each for 1800 s, find a place in a round, and up to fifteen minutes of lateness are tolerable, for every UUID and location that fit |
| `Deployment.ServerServicesNeverExpire` | crates/rusty-castle/src/runtime.rs:289-326 | So, for that device as the server constructs, registers and starts it: at any control point with five free places its five services never expire and keep a location among `places`, from the first wake-up of the loop on, while no wake-up is fifteen minutes late |
| `Deployment.ServerAnswers` | crates/rusty-castle/src/runtime.rs:1058-1096 | The media server, whenever nothing waits to be sent, answers every well-formed search with exactly those of its five targets that are wanted, all five for ssdp:all, each with everything it was set up with |
| `DeviceRuns.LifeCycle` | crates/ssdp-core/src/state/device.rs:144-198 | In every run with one start, exactly one of the initial and the refresh timer is pending between start and shutdown, and neither before or after; every reachable state keeps the size invariants |
| `DeviceRuns.BurstLength` | crates/ssdp-core/src/state/device.rs:233-252 | With n targets registered before or during it, the burst is over after exactly 2n+1 initial rounds and never before, in every interleaving: the counters run down one after another |
| `DeviceRuns.CountDownRounds` | crates/ssdp-core/src/state/device.rs:236-241 | A round is the last of the burst exactly when one is left, and every other round takes exactly one off the number of rounds left |
| `DeviceRuns.TimeoutIs` | crates/ssdp-core/src/state/device.rs:188-201 | A timeout performs at most one announcement round, the one that is due, and keeps every deadline that is not |
| `DeviceRuns.NoAliveAfterByeBye` | crates/ssdp-core/src/state/device.rs:233-276 | When shutdown is called with nothing left to transmit, everything sent before it parses to an alive announcement or a search reply, and everything sent after it to a byebye or a search reply |
| `DeviceRuns.NothingEncodedAfterShutdown` | crates/ssdp-core/src/state/device.rs:144-198 | In every legal run, whatever the configuration, the queue and the buffers, whatever the outbox holds at any time after shutdown was there before it, is the text of a search reply of this device sent to one address, or is a byebye of this device |
| `DeviceBehaviour.RunLists` | crates/ssdp-core/src/state/device.rs:127-141 | After any run a device lists exactly the targets registered with it that fit, in order: eight at most, their text in 128 octets, that of a URN in 124 |
| `DeviceBehaviour.RoundSays` | crates/ssdp-core/src/state/device.rs:278-312 | Every announcement of a round, of any device made with given arguments, is multicast and parses to a Notify whose host, target, USN, location, whole-second age, server, boot and configuration numbers are those given to it, field by field; the targets come in order, at least four of them or all |
| `DeviceBehaviour.ShutdownSays` | crates/ssdp-core/src/state/device.rs:314-335 | A shutdown with nothing to send sends one byebye for every registered target, in order, and each parses to the byebye with that target, USN, boot and configuration number and nothing else |
| `DeviceBehaviour.RoundTimes` | crates/ssdp-core/src/state/device.rs:233-276 | After a round, either the next of the burst is due 100 to 200 ms later, or the refresh half the smallest registered age later, 900 s without targets; never both |
| `DeviceBehaviour.StartAndStop` | crates/ssdp-core/src/state/device.rs:144-162 | Starting makes the first round due at once; shutting down leaves no round pending and the reply timer at once |
| `DeviceBehaviour.SearchSays` | crates/ssdp-core/src/state/device.rs:337-375 | The answers to any well-formed search are those of the registered targets it wants, in order, all or at least the first four: every target for ssdp:all, the same target otherwise, for a URN the same class, folded domain and kind in at least that version, answered as that version. Each goes to the searcher and parses to a response with target, USN, location, age, server, boot and configuration number as given, field by field; nothing else is queued |
| `DeviceBehaviour.SearchChanges` | crates/ssdp-core/src/state/device.rs:165-186 | A search is reported while fewer than four events wait, and sets the reply timer within the time the searcher gives; nothing else about the device changes but its outbox and random state |
| `DeviceBehaviour.OthersAreIgnored` | crates/ssdp-core/src/state/device.rs:165-186 | A datagram that is no search changes nothing |
| `DeviceBehaviour.PollsTake` | crates/ssdp-core/src/state/device.rs:204-224 | Datagrams leave newest first, cut to the room given; events oldest first |
| `DeviceBehaviour.XorShift` | crates/ssdp-core/src/state/device.rs:405-412 | The jitter generator gives the published sequence of xorshift32 from 1 and never reaches zero from another value |
| `DeviceBounds.ShutdownIsComplete` | crates/ssdp-core/src/state/device.rs:314-335 | From an empty outbox, shutdown queues one byebye for each registered target, in order, and reports no error |
| `DeviceBounds.AliveAccounting` | crates/ssdp-core/src/state/device.rs:278-312 | From empty outbox and events, an alive round yields datagrams plus EncodeError events equal to the number of targets, and up to four targets are all queued whole |
| `DeviceBounds.PlacedAreSent` | crates/ssdp-core/src/state/device.rs:204-215 | A round queues exactly the announcements of the targets that find a place, in order and as sent, and those placed and those refused are all the targets |
| `DeviceBounds.AllPlaced` | crates/ssdp-core/src/state/device.rs:378-385 | Every target finds a place if and only if the round fits the 4096 octets and the 16 places that are left |
| `DeviceBounds.FourArePlaced` | crates/ssdp-core/src/state/device.rs:278-312 | From an empty outbox at least four targets find a place, and a round of up to four always fits whole |
| `DeviceBounds.ByeByeBytes` | crates/ssdp-core/src/state/device.rs:314-335 | No byebye exceeds 459 octets |
| `DeviceBounds.AliveBytes` | crates/ssdp-core/src/state/device.rs:278-312 | No alive exceeds 899 octets, so the 1024-octet staging buffer never refuses one |
| `DeviceBounds.ReplyBytes` | crates/ssdp-core/src/state/device.rs:337-376 | No search reply exceeds 852 octets, whatever was searched for |
| `DeviceBounds.SendAllThatFits` | crates/ssdp-core/src/state/device.rs:378-403 | A round that fits the arena is queued whole, in order, and reports nothing |
| `DeviceBounds.RoundAccounting` | crates/ssdp-core/src/state/device.rs:378-385 | Every notification of a round is either queued or reported behind the events already there, and reports beyond four events are dropped |
| `DeviceBounds.RepliesAreInOrder` | crates/ssdp-core/src/state/device.rs:337-376 | The replies queued are those of the matching targets, in order, up to the first that finds no place; `DeviceBehaviour.SearchSays` says which targets match |
| `DeviceBounds.SearchIsAnswered` | crates/ssdp-core/src/state/device.rs:337-376 | With nothing queued and up to four matching targets, every one of them answers; `DeviceBehaviour.SearchSays` says which match and what they say |
| `DeviceBounds.HandleTimeoutKeeps` | crates/ssdp-core/src/state/device.rs:188-201 | A timeout keeps the bounds on arena, events, targets and timers |
| `DeviceBounds.HandleDatagramKeeps` | crates/ssdp-core/src/state/device.rs:165-186 | So does any datagram |
| `Wire.AliveOnWire` | crates/ssdp-core/src/state/device.rs:278-312 | For a printable device, a listener parses an alive to the message `AliveFor` with its age in whole seconds; `DeviceBehaviour.RoundSays` gives that message field by field |
| `Wire.ByeByeOnWire` | crates/ssdp-core/src/state/device.rs:314-335 | A listener parses a byebye to the message the device meant, whatever its LOCATION and SERVER |
| `Wire.ReplyOnWire` | crates/ssdp-core/src/state/device.rs:337-376 | A listener parses a search reply to the message the device meant, its max-age cut to whole 32-bit seconds |
| `Wire.RegisteredReadsBack` | crates/ssdp-core/src/state/device.rs:415-446 | Re-parsing the stored text of a registered target gives that target if and only if it is well formed |
| `Device.Device.constructor` | crates/ssdp-core/src/state/device.rs:99-121 | A new device is the initial state, over-long UUID, location and server text replaced as the source does |
| `Device.Device.AddTarget` | crates/ssdp-core/src/state/device.rs:127-142 | Registers a target unless the list is full or its text too long, and says which |
| `Device.Device.Start` | crates/ssdp-core/src/state/device.rs:144-151 | Takes exactly the start step: the initial round is due at once |
| `Device.Device.Shutdown` | crates/ssdp-core/src/state/device.rs:153-162 | Takes exactly the shutdown step: byebyes queued, announcement timers cancelled |
| `Device.Device.HandleDatagram` | crates/ssdp-core/src/state/device.rs:165-186 | Takes exactly the datagram step: only an M-SEARCH has an effect; `DeviceBehaviour.SearchSays`, `SearchChanges` and `OthersAreIgnored` say what that step is |
| `Device.Device.HandleTimeout` | crates/ssdp-core/src/state/device.rs:188-201 | Takes exactly the timeout step: due timers fire in slot order |
| `Device.Device.PollTransmit` | crates/ssdp-core/src/state/device.rs:204-215 | Hands out the newest pending datagram, cut to the caller's buffer, octet for octet as enqueued |
| `Device.Device.PollEvent` | crates/ssdp-core/src/state/device.rs:218-225 | Hands out the oldest event |
| `Device.Device.PollTimeout` | crates/ssdp-core/src/state/device.rs:227-229 | Names the earliest deadline |
| `Device.Device.OnInitialAlive` | crates/ssdp-core/src/state/device.rs:233-252 | One round of the burst: announcements, countdown, next timer |
| `Device.Device.OnAliveRefresh` | crates/ssdp-core/src/state/device.rs:254-261 | One refresh round, or byebyes when shutting down |
| `Device.Device.ScheduleAliveRefresh` | crates/ssdp-core/src/state/device.rs:263-276 | Sets the refresh at half the smallest max-age |
| `Device.Device.SendAliveAll` | crates/ssdp-core/src/state/device.rs:278-312 | Queues one alive per target, skipping those that find no place; `DeviceBehaviour.RoundSays` says what each is |
| `Device.Device.SendByeByeAll` | crates/ssdp-core/src/state/device.rs:314-335 | Queues one byebye per target |
| `Device.Device.EncodeSearchResponses` | crates/ssdp-core/src/state/device.rs:337-376 | Queues the replies to a search, stopping at the first that finds no place; `DeviceBehaviour.SearchSays` says which and what |
| `Device.Device.EnqueueNotify` | crates/ssdp-core/src/state/device.rs:378-385 | Encodes, queues, and reports a full arena |
| `Device.Device.EnqueuePayload` | crates/ssdp-core/src/state/device.rs:387-403 | Appends a datagram to the arena behind all others; a refused one changes nothing |
| `Device.CountDownAll` | crates/ssdp-core/src/state/device.rs:236-241 | The short-circuiting countdown: which counter it touches and whether all have run out |
| `Device.TargetToString` | crates/ssdp-core/src/state/device.rs:415-441 | The text of a target, if it and its encoder's four extra octets fit in 128 |
| `Device.SegmentsAreDisjoint` | crates/ssdp-core/src/state/device.rs:387-403 | Pending segments lie one after another from the start of the arena, without gaps or overlaps |
| `Device.ContentsPushed` | crates/ssdp-core/src/state/device.rs:387-403 | Writing behind the last segment adds one datagram to the stack and changes no other |
| `Device.PopSegment` | crates/ssdp-core/src/state/device.rs:204-215 | Dropping the last segment drops exactly the newest datagram |
| `Timers.SetTimerMeans` | crates/ssdp-core/src/state/timer.rs:40-60 | With a slot for every kind in use, setting a timer replaces that kind's deadline and no other: nothing is evicted |
| `Timers.FullQueueEvicts` | crates/ssdp-core/src/state/timer.rs:40-60 | In a full queue without the kind, the timer furthest in the future makes way, the last of equals |
| `Timers.RoomForKind` | crates/ssdp-core/src/state/timer.rs:40-60 | Pigeonhole: a kind without a timer finds an empty slot |
| `Timers.CancelTimerMeans` | crates/ssdp-core/src/state/timer.rs:62-69 | Cancelling removes one kind's deadline and no other |
| `Timers.CancelTimerClears` | crates/ssdp-core/src/state/timer.rs:62-69 | Every slot of the kind is cleared and no other, whatever the queue holds |
| `Timers.DrainMeans` | crates/ssdp-core/src/state/timer.rs:80-103 | Draining yields each due kind exactly once and keeps every other deadline |
| `Timers.DueInOrder` | crates/ssdp-core/src/state/timer.rs:80-103 | Due kinds come in slot order, every due slot once |
| `Timers.NextTimeoutAfterDrain` | crates/ssdp-core/src/state/timer.rs:71-78 | After draining, the next timeout is later than now |
| `Timers.NextTimeoutIsEarliest` | crates/ssdp-core/src/state/timer.rs:71-78 | The next timeout is at or before every deadline |
| `Timers.TimerQueue.Set` | crates/ssdp-core/src/state/timer.rs:40-60 | Overwrites the same kind's slot, else the first free one, else the furthest |
| `Timers.TimerQueue.Cancel` | crates/ssdp-core/src/state/timer.rs:62-69 | Clears every slot of that kind and no other |
| `Timers.TimerQueue.NextDeadline` | crates/ssdp-core/src/state/timer.rs:71-78 | The smallest deadline, if any |
| `Timers.TimerQueue.DrainExpired` | crates/ssdp-core/src/state/timer.rs:80-103 | Removes and lists the due kinds in slot order |
| `Cache.ServiceCache.Insert` | crates/ssdp-core/src/state/cache.rs:43-67 | Files or refreshes an entry; a new key on a full table, or text that is too long, changes nothing |
| `Cache.ServiceCache.Remove` | crates/ssdp-core/src/state/cache.rs:70-76 | Removes that key and no other |
| `Cache.ServiceCache.Get` | crates/ssdp-core/src/state/cache.rs:79-83 | Looks a key up |
| `Cache.ServiceCache.Expire` | crates/ssdp-core/src/state/cache.rs:86-98 | Removes exactly the due entries and lists each of their keys once; the collecting buffer holds them all |
| `Cache.ServiceCache.NextExpiryTime` | crates/ssdp-core/src/state/cache.rs:111-113 | The earliest expiry, if there is an entry |
| `ControlPointRuns.NoExpiryIsMissed` | crates/ssdp-core/src/state/control_point.rs:104-185 | Whole runs: with positive max-ages a non-empty cache always has its expiry timer at or before its first expiry, holds at most 64 entries, and after any timeout nothing in it has expired |
| `ControlPointRuns.HearKeepsGuardExactly` | crates/ssdp-core/src/state/control_point.rs:233-243 | A datagram keeps that invariant exactly when it does not file an entry of zero max-age, or the expiry timer is due anyway |
| `ControlPointRuns.TimeoutExpires` | crates/ssdp-core/src/state/control_point.rs:159-185 | On such a state a timeout, however late, removes exactly the expired entries |
| `ControlPointRuns.ZeroAgeLingers` | crates/ssdp-core/src/state/control_point.rs:233-243 | A well-formed NOTIFY with max-age 0, heard while no expiry timer is set, is filed and then stays in the cache, expired on arrival, through every wake-up and search until another datagram is heard |
| `ControlPointRuns.CacheMirrorsLog` | crates/ssdp-core/src/state/control_point.rs:104-185 | After any run a service is cached with a given location and expiry exactly when an accepted announcement filed it so, at receipt plus max-age, with no byebye, expiry or accepted announcement for its key since; the `ControlPointBehaviour` lemmas say which datagram announces what |
| `ControlPointBehaviour.ResponseIsFiled` | crates/ssdp-core/src/state/control_point.rs:104-127 | A well-formed response whose USN fits is filed under that USN with its location until its age has passed, if the location fits 256 octets and there is room among 64; no other entry changes; it is reported with USN, location and age if the location fits; the expiry timer is set to the first expiry, unless one is past |
| `ControlPointBehaviour.NotifyIsFiled` | crates/ssdp-core/src/state/control_point.rs:128-148 | The same for an alive and an update notification |
| `ControlPointBehaviour.ByeByeIsRemoved` | crates/ssdp-core/src/state/control_point.rs:149-155 | A byebye removes the entry under its USN and nothing else, and is reported under that USN |
| `ControlPointBehaviour.OthersAreIgnored` | crates/ssdp-core/src/state/control_point.rs:104-109 | Searches and unreadable datagrams change nothing and are not reported |
| `ControlPointBehaviour.SearchTimes` | crates/ssdp-core/src/state/control_point.rs:93-102 | A search restarts the count and waits half its time, kept within 1 to 5 s, and one second more |
| `ControlPointBehaviour.RetransmitTimes` | crates/ssdp-core/src/state/control_point.rs:163-173 | The first firing of the search timer sets it again after the whole time of the search, the second does not, whatever expires at the same moment |
| `ControlPoint.SearchIsHeard` | crates/ssdp-core/src/state/control_point.rs:222-241 | A search parses to what was asked, with the multicast host, if and only if its waiting time is 1 to 5 s |
| `ControlPoint.OldestAreKept` | crates/ssdp-core/src/state/control_point.rs:116-122 | Of more than eight unread events the oldest eight stay |
| `ControlPointSpec.TimeoutIs` | crates/ssdp-core/src/state/control_point.rs:159-185 | Both timers' effects in either slot order: entries expire exactly when the expiry timer is due, the retransmit counter rises exactly when its timer is and never passes two |
| `ControlPointSpec.KeyIsText` | crates/ssdp-core/src/state/control_point.rs:246-296 | A cache key is the USN text of the wire exactly when that has at most 128 octets; keys never exceed that |
| `ControlPointSpec.KeysIdentify` | crates/ssdp-core/src/state/control_point.rs:246-296 | Well-formed USNs of at most 128 octets parse back from their keys, so no two services that both fit share one |
| `ControlPointSpec.KeyReadsBack` | crates/ssdp-core/src/state/control_point.rs:246-296 | A USN is read back from its key if and only if it is well formed and fits |
| `ControlPointSpec.LongUuidsCollide` | crates/ssdp-core/src/state/control_point.rs:246-296 | Beyond the limit services do share keys: with the same embedded target, or none, all UUIDs that do not fit have one key |
| `ControlPointSpec.DevicesShareKey` | crates/ssdp-core/src/state/control_point.rs:246-296 | Two devices with non-empty UUIDs share a key if and only if the UUIDs are the same or neither fits |
| `ControlPointSpec.ShortenedTakesKey` | crates/ssdp-core/src/state/control_point.rs:246-296 | A service that does not fit can also take the key of one that does: after a UUID of 122 octets only a one-octet domain is kept of a device URN, which gives the key of the device whose UUID is that octet longer |
| `ControlPointSpec.TakesKeyExactly` | crates/ssdp-core/src/state/control_point.rs:246-296 | Some well-formed service that fits has the key of a given USN if and only if that key parses to a USN that prints as the key |
| `ControlPoint.ControlPoint.Search` | crates/ssdp-core/src/state/control_point.rs:93-102 | Takes exactly the search step, and from an empty outbox queues exactly the M-SEARCH, if it fits 512 octets |
| `ControlPoint.ControlPoint.HandleDatagram` | crates/ssdp-core/src/state/control_point.rs:105-156 | Takes exactly the datagram step and reports it, keeping the oldest eight events; `ControlPointBehaviour.ResponseIsFiled`, `NotifyIsFiled`, `ByeByeIsRemoved` and `OthersAreIgnored` say what step and what report for each kind of datagram |
| `ControlPoint.ControlPoint.HandleTimeout` | crates/ssdp-core/src/state/control_point.rs:159-185 | Takes exactly the timeout step; every entry that expires is reported once |
| `ControlPoint.ControlPoint.RescheduleCacheExpiry` | crates/ssdp-core/src/state/control_point.rs:233-243 | Arms the expiry timer only when the next expiry is in the future |
| `ControlPoint.ControlPoint.PollTransmit` | crates/ssdp-core/src/state/control_point.rs:188-198 | Hands out the newest pending search as a prefix of the shared buffer |
| `ControlPoint.UsnToString` | crates/ssdp-core/src/state/control_point.rs:246-310 | The piecewise bounded rendering of a USN, each piece added whole or not at all |
| `ParserImage.RoundTripExactly` | crates/ssdp-core/src/parse/headers.rs:15-196 | Parsing the text of a message returns that message exactly when it is well formed: every optional header survives, and nothing else does |
| `ParserImage.ParsedIsWellFormed` | crates/ssdp-core/src/parse/mod.rs:18-39 | Everything the parser accepts is well formed |
| `ParserImage.CanonicalFormKeepsMeaning` | crates/ssdp-core/src/parse/mod.rs:18-39 | Printing what was parsed and parsing it again changes nothing |
| `MessageRoundTrip.NotifyParsesBack` | crates/ssdp-core/src/encode/notify.rs:8-50 | Every well-formed NOTIFY parses back from its text |
| `MessageRoundTrip.ResponseParsesBack` | crates/ssdp-core/src/encode/response.rs:8-41 | Every well-formed search response parses back from its text |
| `MessageRoundTrip.MSearchParsesBack` | crates/ssdp-core/src/encode/msearch.rs:9-38 | Every well-formed M-SEARCH parses back from its text |
| `HeaderMeaning.DatagramMeans` | crates/ssdp-core/src/parse/headers.rs:15-195 | Every datagram of a start line and clean headers, any number of any names in any order, parses to `Meaning`: kind by the start line, the first refused header decides an error, otherwise each field is the value of the last header of its name, and the first missing required field decides an error; more than 32 headers are refused |
| `HeaderMeaning.ForeignHeadersAreIgnored` | crates/ssdp-core/src/parse/headers.rs:27-53 | A clean UTF-8 header with none of the 18 known names, inserted anywhere within the 32, changes nothing |
| `HeaderMeaning.OnlyLastCounts` | crates/ssdp-core/src/parse/headers.rs:86-117 | Any list of the headers of a readable message with the same last header of every known name parses to the same message |
| `HeaderMeaning.OrderIsIrrelevant` | crates/ssdp-core/src/parse/headers.rs:86-117 | Neighbouring headers of different names in a readable message may change places |
| `HeaderMeaning.LaterDecides` | crates/ssdp-core/src/parse/headers.rs:160-184 | Of two headers of the same name in a readable message the earlier may be left out |
| `HeaderMeaning.LoosenessIsIgnored` | crates/ssdp-core/src/parse/headers.rs:199-208 | Blanks around values and bare line feeds make no difference to the meaning |
| `HeaderMeaning.NoLineIsTooShort` | crates/ssdp-core/src/parse/start_line.rs:17-33 | A datagram without a line end is too short |
| `Encode.EncodeNotify` | crates/ssdp-core/src/encode/notify.rs:8-50 | Encoding succeeds exactly when the text fits the buffer, and then the buffer holds the text |
| `WireText.NotifyOnWire` | crates/ssdp-core/src/encode/notify.rs:8-50 | A notification octet for octet: start line, names, order, separators, absent fields left out |
| `Encode.EncodeResponse` | crates/ssdp-core/src/encode/response.rs:8-41 | The same for search responses |
| `WireText.ResponseOnWire` | crates/ssdp-core/src/encode/response.rs:8-40 | The same for a response |
| `Encode.EncodeMSearch` | crates/ssdp-core/src/encode/msearch.rs:9-38 | The same for M-SEARCH |
| `WireText.SearchOnWire` | crates/ssdp-core/src/encode/msearch.rs:9-38 | The same for an M-SEARCH |
| `Encode.BufWriter.WriteStr` | crates/ssdp-core/src/encode/mod.rs:33-45 | The cursor advances over exactly what was written; a write that does not fit writes nothing |
| `Encode.BufWriter.WriteTarget` | crates/ssdp-core/src/encode/msearch.rs:40-81 | Writes a target's text |
| `Encode.BufWriter.WriteUsnHeader` | crates/ssdp-core/src/encode/notify.rs:52-95 | Writes a USN field |
| `Encode.U32ToStr` | crates/ssdp-core/src/encode/mod.rs:73-85 | The backward digit loop yields the decimal text of every 32-bit number |
| `Parse.ParseMSearch` | crates/ssdp-core/src/parse/headers.rs:15-68 | The header loop computes the fold that `HeaderMeaning.DatagramMeans` characterises, for M-SEARCH |
| `Parse.ParseNotify` | crates/ssdp-core/src/parse/headers.rs:71-144 | The same for NOTIFY, with LOCATION and CACHE-CONTROL required unless the device leaves |
| `Parse.ParseResponse` | crates/ssdp-core/src/parse/headers.rs:147-196 | The same for a search response |
| `Http.SplitOfRendered` | crates/ssdp-core/src/parse/headers.rs:199-208 | The contract of the header splitter: it inverts printing of clean header lines |
| `Target.TargetRoundTrip` | crates/ssdp-core/src/header/target.rs:37-88 | Exactly the well-formed targets come back from print-then-parse |
| `Target.ParsedTargetIsWellFormed` | crates/ssdp-core/src/header/target.rs:37-88 | Every parsed target is well formed |
| `Target.UsnRoundTrip` | crates/ssdp-core/src/header/usn.rs:23-50 | Exactly the well-formed USNs come back from print-then-parse |
| `Target.TargetSyntax` | crates/ssdp-core/src/header/target.rs:37-55 | The two fixed targets in any case, a UUID unless empty, and an error for every other beginning but a URN |
| `Target.UrnSyntax` | crates/ssdp-core/src/header/target.rs:58-85 | A URN of four parts: no empty domain or kind, class device or service, a 32-bit version; otherwise an error |
| `Target.UrnIsTarget` | crates/ssdp-core/src/header/target.rs:37-55 | A target that begins with urn: is that URN |
| `Target.ShortUrns` | crates/ssdp-core/src/header/target.rs:58-85 | With fewer parts it is an error |
| `Target.UsnSyntax` | crates/ssdp-core/src/header/usn.rs:23-48 | A USN is a device alone, or a device and the target behind the first double colon; neither may be empty, and an error of the target is passed on |
| `Target.OnlyUuids` | crates/ssdp-core/src/header/usn.rs:23-48 | A USN that begins otherwise is refused |
| `Fields.WireNamesAreRecognised` | crates/ssdp-core/src/header/mod.rs:36-43 | Every field name the encoders write is recognised as its field, in whatever mix of cases it arrives |
| `Fields.SubTypeRoundTrip` | crates/ssdp-core/src/header/nts.rs:18-39 | Notification sub types come back from print-then-parse |
| `Fields.NumbersRoundTrip` | crates/ssdp-core/src/header/bootid.rs:8-25 | 32-bit numbers and ports come back; MX only from 1 to 5 |
| `Fields.ParseMx` | crates/ssdp-core/src/header/mx.rs:11-17 | An accepted MX lies between 1 and 5 |
| `Fields.MaxAgeRoundTrip` | crates/ssdp-core/src/header/cache_control.rs:10-25 | A max-age comes back as the whole 32-bit seconds the wire carries |
| `Fields.MaxAgeIsRead` | crates/ssdp-core/src/header/cache_control.rs:10-25 | The first max-age directive decides, with any blanks around it and its equals sign, any digits, and whatever follows the next comma |
| `Fields.OtherDirectivesAreSkipped` | crates/ssdp-core/src/header/cache_control.rs:10-25 | Directives that do not begin with max-age are passed over, and without another the field is refused |
| `Fields.SubTypeSyntax` | crates/ssdp-core/src/header/nts.rs:18-29 | A sub type is recognised if and only if it is one of the three in any case |
| `Fields.NumberSyntax` | crates/ssdp-core/src/header/bootid.rs:8-26 | Digits after a plus sign or none are read if in range: 32 bits, 16 bits, 1 to 5 for MX, from 1 for a search port |
| `Fields.OnlyNumbers` | crates/ssdp-core/src/header/mx.rs:11-18 | Anything else is refused |
| `Fields.LocationSyntax` | crates/ssdp-core/src/uri.rs:14-16 | A location is 1 to 2048 octets of printable ASCII, or refused |
| `Mp4.FindMvhd` | crates/rusty-castle/src/runtime.rs:483-517 | The loop over box offsets, with its recursion into movie boxes, computes the walk, on every file and every range, and terminates |
| `Mp4.ReadMvhd` | crates/rusty-castle/src/runtime.rs:519-550 | Reads timescale and duration of either version by the file cursor |
| `Mp4.WalkIsSearch` | crates/rusty-castle/src/runtime.rs:483-517 | On every file the walk is the depth-first, moov-only search of the box forest the file spells, and fails exactly when it reaches a 16-octet header that the end of the file cuts short |
| `Mp4.SearchFileIs` | crates/rusty-castle/src/runtime.rs:491-501 | The search of a file is the plain search unless so cut short, which cannot happen when no level ends in a header's worth of junk or the file goes on for eight octets |
| `Mp4.DecodeIsFaithful` | crates/rusty-castle/src/runtime.rs:496-510 | Any octets at all are the serialization of a valid box forest, in 32-bit, 64-bit and to-the-end sizes, followed by unreadable junk |
| `Mp4.SerializedForest` | crates/rusty-castle/src/runtime.rs:483-517 | A forest written out whole is searched exactly and without error |
| `Mp4.MovieHeaderRoundTrip` | crates/rusty-castle/src/runtime.rs:519-550 | A movie header laid out by section 8.2.2 of ISO/IEC 14496-12 yields its timescale and duration |
| `Mp4.HeaderIsReadable` | crates/rusty-castle/src/runtime.rs:519-550 | A movie header is readable if and only if it has 20 octets in version 0 or 32 in version 1 |
| `Mp4.DurationReadsBack` | crates/rusty-castle/src/runtime.rs:552-565 | The printed H:MM:SS.mmm reads back as the duration in milliseconds, nearest absent saturation; and it is the rounded quotient exactly when that does not exceed the 64-bit cap |
| `Mp4.ClockIsShortest` | crates/rusty-castle/src/runtime.rs:552-565 | No shorter text, nor another of its length, reads as the same time: hours without leading zeros, two digits each for minutes and seconds, milliseconds only when there are any |
| `Mp4.SaturationMisprints` | crates/rusty-castle/src/runtime.rs:552-565 | Whenever the rounded milliseconds exceed the 64-bit cap, the printed text reads back as the cap instead; the largest duration at timescale 1 is such a case |
| `Mp4.Mp4Duration` | crates/rusty-castle/src/runtime.rs:471-481 | A file's duration text, none without a timescale |
| `Mp4.WrittenDurationIsRead` | crates/rusty-castle/src/runtime.rs:471-481 | In a file of whole boxes, with less than a header of junk at the end of any level, whose first movie header, in either layout, states a time with a timescale the duration text exists and reads back as that time in milliseconds |
| `Mp4.EverydayFile` | crates/rusty-castle/src/runtime.rs:483-517 | A file of the four-octet-named boxes ftyp, moov and mdat with mvhd first in moov, written out in octets, gets the duration its header gives, for both header layouts |
| `Mp4.FirstDecides` | crates/rusty-castle/src/runtime.rs:483-517 | Behind boxes without a movie header, the first one of a level decides even if it cannot be read, a movie box decides if it holds a readable one, and any other box is passed over |
| `Mp4.NoTimeNoText` | crates/rusty-castle/src/runtime.rs:471-481 | Without a movie header, or with a timescale of zero, there is no text and no error |
| `Calendar.FormulaFollowsCalendar` | crates/rusty-castle/src/main.rs:178-194 | Day 0 is 1970-01-01, every result is a valid date, and each next day number gives the calendar's next date, for every integer |
| `Calendar.FormulaIsInverse` | crates/rusty-castle/src/main.rs:178-194 | The formula and counting days by whole years and months are two-sided inverses |
| `Calendar.NoOverflow` | crates/rusty-castle/src/main.rs:178-194 | No intermediate value overflows 64 bits exactly up to the day number where the first addition does |
| `Calendar.DayNumbersInRange` | crates/rusty-castle/src/main.rs:150-176 | No clock of 64-bit seconds reaches such a day number |
| `Calendar.TimestampIsExact` | crates/rusty-castle/src/main.rs:150-176 | The fields of a timestamp are a valid date and time of day and add up to the clock's milliseconds, before the epoch as after it |
| `Scan.ScannedTree.ScanDir` | crates/rusty-castle/src/runtime.rs:364-446 | Appends exactly the tree's folders and files to the two lists, each directory before its contents; fails exactly when some MP4 below cannot be read |
| `Scan.ScannedTree.ScanFile` | crates/rusty-castle/src/runtime.rs:387-443 | Appends exactly one item with its identifier, parent, title, size and duration |
| `Scan.ScanTree` | crates/rusty-castle/src/runtime.rs:349-362 | A whole scan is the catalog of the tree, or an error |
| `Scan.HashPath` | crates/rusty-castle/src/runtime.rs:456-469 | The hash loop over path components |
| `ScanBehaviour.PathHashIsFnv` | crates/rusty-castle/src/runtime.rs:456-469 | The hash of a path is the FNV-1a hash of its octets, every component followed by a slash |
| `ScanBehaviour.FnvConstants` | crates/rusty-castle/src/runtime.rs:456-469 | Its two constants are the published ones |
| `ScanBehaviour.HexReadsBack` | crates/rusty-castle/src/runtime.rs:456-469 | An identifier spells its hash in sixteen lower-case hexadecimal digits |
| `Scan.IdsDiffer` | crates/rusty-castle/src/runtime.rs:448-469 | Container and media identifiers and the root's never coincide, and within a kind they differ whenever the hashes do |
| `Scan.SortIsSorted` | crates/rusty-castle/src/runtime.rs:371-372 | Directories are scanned in name order, every entry once |
| `ScanBehaviour.NamesAreRead` | crates/rusty-castle/src/runtime.rs:1228-1242 | A name with an ending is MP4, one of the three MPEG endings, in any case, or no media; its title is the name without the ending |
| `ScanBehaviour.PlainNames` | crates/rusty-castle/src/runtime.rs:1228-1242 | A name without an ending, or with its only dot in front, is no media |
| `ScanBehaviour.NameOrder` | crates/rusty-castle/src/runtime.rs:371-372 | Names are ordered by their first different octet, a name before its continuations |
| `ScanBehaviour.ItemSays` | crates/rusty-castle/src/runtime.rs:398-446 | A media file is listed with identifier, parent, title, address, MIME type, size and duration, each given in full |
| `ScanBehaviour.FolderSays` | crates/rusty-castle/src/runtime.rs:374-396 | A directory is listed with identifier, parent and its name |
| `ScanBehaviour.FlatSays` | crates/rusty-castle/src/runtime.rs:374-396 | A directory is listed before what it holds, and that in name order |
| `ScanBehaviour.OthersAreNotListed` | crates/rusty-castle/src/runtime.rs:398-404 | Other files, and what is neither file nor directory, are not listed |
| `ScanBehaviour.FilesThatStop` | crates/rusty-castle/src/runtime.rs:364-446 | A file stops the scan if and only if it is an MP4 file whose boxes cannot be read to the end |
| `Library.BrowsingRecoversTree` | crates/rusty-castle/src/control.rs:135-212 | Browsing from "0" and opening every folder shows exactly the scanned tree: every directory and media file once, under its own parent, folders first, in name order, with true child counts |
| `Library.MetadataIsWhatIsShown` | crates/rusty-castle/src/control.rs:135-161 | Every object a client sees while exploring to any depth is the one object Browse returns for the metadata of its identifier, given distinct names, distinct directory hashes and distinct media hashes |
| `Library.MetadataIsItsObject` | crates/rusty-castle/src/control.rs:135-161 | Under the same hypotheses, asked for the metadata of any scanned directory or media file, Browse answers with its object and no other |
| `Library.CountsAddUp` | crates/rusty-castle/src/catalog.rs:128-132 | The catalog's child count of the root and the counts shown on every folder a client opens from there add up to the number of its containers and items, and the client sees that many objects |
| `Library.UniqueIds` | crates/rusty-castle/src/runtime.rs:456-469 | Distinct names within directories and distinct hashes of directory paths give every directory its own identifier |
| `Library.FilterInto` | crates/rusty-castle/src/runtime.rs:364-446 | In the flattened tree, the nodes with a given parent are those inside the one directory that parent is under |
| `Library.ChildrenStayInside` | crates/rusty-castle/src/catalog.rs:114-125 | So the catalog's own child filters, given a directory, find exactly the containers and items they find inside the directory it is under |
| `Catalog.AnswersAreCounted` | crates/rusty-castle/src/control.rs:135-161 | Every answer holds as many objects as it says; there is an error if and only if the identifier is unknown |
| `ScanBehaviour.RootSays` | crates/rusty-castle/src/control.rs:183-195 | The root is a folder called Media under -1 with its number of children |
| `ScanBehaviour.VideosHaveNoChildren` | crates/rusty-castle/src/control.rs:151-161 | Asked for the children of a scanned video, Browse answers with none |
| `SoapRoundTrip.ResponseRoundTrip` | crates/upnp-core/src/soap.rs:75-113 | Parsing a written response recovers service type, response name and argument text exactly when no argument is named "Body" or like the response element and ":service:" first occurs after the domain |
| `SoapRequest.RequestIsRead` | crates/upnp-core/src/soap.rs:73-88 | A request with any preamble, prefixes, attributes, quotes, blanks and comments is read as its action, the service type declared for its prefix, and its arguments, as long as no argument is named like the body or the action |
| `SoapRequest.ArgumentsAre` | crates/upnp-core/src/soap.rs:45-70 | The iterator yields the arguments among comments, instructions, elements without content and text: each once, in order, under its local name, its text trimmed |
| `SoapRequest.NoBody` | crates/upnp-core/src/soap.rs:164-178 | A document without a body element is refused as such |
| `SoapRequest.NoAction` | crates/upnp-core/src/soap.rs:180-191 | A body without an element has no action |
| `SoapRequest.MarkedFirst` | crates/upnp-core/src/soap.rs:180-191 | Nor has one whose first tag is a comment, an instruction, a closing tag or closed in itself |
| `SoapRequest.Unclosed` | crates/upnp-core/src/soap.rs:164-191 | A body never closed is missing, an action never closed is none |
| `SoapRequest.UndeclaredIsRefused` | crates/upnp-core/src/soap.rs:220-233 | An action tag without a declaration is refused for its namespace |
| `SoapRequest.OtherUrnIsRefused` | crates/upnp-core/src/soap.rs:264-274 | A namespace that is no service type is refused |
| `SoapRequest.VersionDecides` | crates/upnp-core/src/soap.rs:264-274 | The version of a service type is a 32-bit number, or the type is refused |
| `SoapRequest.ColonsSplit` | crates/upnp-core/src/soap.rs:194-203 | The local name follows the last colon, the prefix precedes the first |
| `SoapRoundTrip.ArgumentsRoundTrip` | crates/upnp-core/src/soap.rs:45-72 | The iterator yields every written argument once and in order; values unescape to the originals without outer white space, and to the originals exactly when they have none |
| `SoapRoundTrip.ServiceRoundTrip` | crates/upnp-core/src/soap.rs:264-274 | A service type comes back from its URN exactly when ":service:" does not occur early |
| `Soap.FindCloseForName` | crates/upnp-core/src/soap.rs:205-218 | The loop over closing tags finds the first with that local name |
| `Soap.FindBody` | crates/upnp-core/src/soap.rs:164-178 | The loop over tags finds the first element of that name and the text up to its closing tag |
| `Soap.FindNamespaceIn` | crates/upnp-core/src/soap.rs:220-233 | The loop over "xmlns" finds the first declaration of the prefix with a value |
| `Soap.ParseActionRequest` | crates/upnp-core/src/soap.rs:75-87 | The steps of the parser and the error of each |
| `Soap.ArgumentIter.Next` | crates/upnp-core/src/soap.rs:48-72 | One step of the iterator, on any text: the argument and what is left to read |
| `Soap.WriteActionResponse` | crates/upnp-core/src/soap.rs:99-113 | Succeeds if and only if the sink has room for the whole document and then has written exactly that; otherwise it has written a beginning of it |
| `Soap.DocumentIs` | crates/upnp-core/src/soap.rs:99-113 | The response document in full around its arguments |
| `Soap.EnvelopeIs` | crates/upnp-core/src/soap.rs:152-162 | The envelope around it, with the two addresses of SOAP 1.1 |
| `Soap.ArgumentsIs` | crates/upnp-core/src/soap.rs:99-113 | Each argument stands escaped in its element, in order |
| `Xml.WriteEscapedText` | crates/upnp-core/src/xml.rs:7-19 | Succeeds if and only if the sink has room for the escaped text and then has written exactly that; otherwise a beginning of it |
| `Xml.WriteTextElement` | crates/upnp-core/src/xml.rs:22-31 | The same for the element around it |
| `Xml.EscapeRoundTrip` | crates/upnp-core/src/xml.rs:7-19 | Unescaping undoes escaping |
| `Xml.EscapedHolds` | crates/upnp-core/src/xml.rs:7-19 | Escaped text holds no angle bracket and no quote, and an ampersand only where one of the five entities begins |
| `Xml.TrimOfEscaped` | crates/upnp-core/src/xml.rs:7-19 | Trimming escaped text trims the text |
| `Ranges.ApplyIsIntersection` | crates/media-http/src/range.rs:81-101 | Applying a range gives exactly the octets asked for within the file, fails exactly when there are none, and stays within 64 bits |
| `Ranges.ParsedSpecIsOk` | crates/media-http/src/range.rs:51-77 | Parsed ranges are neither backwards nor empty |
| `Ranges.RangeParsesBack` | crates/media-http/src/range.rs:51-77 | `bytes=a-b` and `bytes=a-` parse to what they say |
| `Ranges.RangeIsRead` | crates/media-http/src/range.rs:51-77 | What a range of two runs of digits, either possibly empty, asks for, in blanks or none: a suffix, an open or a closed range, and each way it fails |
| `Ranges.OnlyRangesAreRead` | crates/media-http/src/range.rs:51-77 | Any other text is no range |
| `Ranges.SuffixServes` | crates/media-http/src/response.rs:80-138 | A GET for the last n octets gets exactly these, or all of a shorter file, with their Content-Range |
| `Ranges.RangeServes` | crates/media-http/src/response.rs:80-138 | A GET from a position gets the octets up to its end or that of the file, with their Content-Range; past the end it gets a 416 |
| `Ranges.PlanIsHonest` | crates/media-http/src/response.rs:80-138 | The planned Content-Length is the length of the body; status, Content-Range and body agree with the range asked for, and a HEAD announces what a GET sends. A 416 is planned if and only if the header parses and asks for no octet of the file, or is backwards or asks for the last 0; everything is sent if and only if there is no header or it is no single byte range |
| `Ranges.ResumedIsWhole` | crates/media-http/src/response.rs:80-138 | A client that fetches any sequence of consecutive ranges, resuming where it stopped, receives the file |

## Left out

- Sockets, threads, files as the operating system sees them, logging, scenario capture, environment and command line: input and output. Datagrams, instants and buffers are parameters; a media file is its octets, a directory an inductive tree.
- HTTP routing, the HTML pages, the rescan lock and its status: thin dispatch and user interface.
- The internals of `httparse`, `heapless` and `FnvIndexMap`, which are not part of this model: `Http` states the splitter as a contract (lines ended by CRLF or LF, values trimmed of blanks, at most 32 headers, no folded lines), bounded vectors and strings refuse what does not fit, the map has unique keys and an unspecified order of iteration.
- Overflow of `Duration` and `Instant` additions, which would need clocks beyond 2^64 seconds: instants are unbounded.
- Socket addresses are an opaque address with a port.
- DIDL, device description and SCPD text: long writers with no reader in the repository; Browse is stated over lists of objects.
- SOAP faults, the ConnectionManager actions and the arguments of Browse other than object and flag: the same writers and filters with other fixed texts.
- Protocol information of items, `StaticCatalog::push` and the catalog update id: they would add only easy members.
- The text layout of log timestamps: the fields are proved exact, their printing is not modelled.
- File names that are not UTF-8, symbolic links and errors while listing a directory.
- Searches queued on top of each other in a control point: its pending searches share one buffer, so an earlier one is sent with the later one's octets. `ControlPoint.ControlPoint.Search` states what is queued for every case and what is sent when nothing was pending.
- `start` after `shutdown`, or twice: excluded by `DeviceRuns.Legal`.
- Sinks that refuse text for other reasons than room: `Xml.Sink` takes every piece that fits its limit and refuses any other.
