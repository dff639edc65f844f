# Unreliable devices and linked counters: a verified model

The repository vendors C tools that move data through request/response devices which lose replies,
refuse lengths and answer twice, and a counter monitor that keeps three linked lists in step. This
project models the stateful core of those tools and proves what it promises over every run.

| modules | what they model |
|---|---|
| `SdrReader`, `SdrCache`, `SdrClient`, `SdrFile`, `SdrScan` | the chunked sensor-record reader, the lazily filled record cache behind five lookups, the dump/load file, and what they say about the whole repository (`ipmi_sdr.c`) |
| `HpmUpload`, `HpmStage`, `HpmAgent` | the HPM.1 block upload and action-record walker (`ipmi_hpmfwupg.c`) |
| `KfwumUpload`, `KfwumAgent` | the address-mode firmware update agent (`ipmi_fwum.c`) |
| `CounterList`, `Turbostat`, `TurbostatLoop`, `TurbostatMain` | the sorted counter lists, double-buffered snapshots and main loop (`turbostat.c`) |
| `FruTransfer`, `FruReader`, `FruPort`, `FruMultiRecord`, `FruEditor`, `FruText` | FRU reads and writes, the checksummed record chain and its editor, packed text (`ipmi_fru.c`) |
| `LanParam` | the set-in-progress protocol (`ipmi_lanp.c`) |
| `WattsUp`, `WattsUpPort` | the power meter's packet writer and in-place parser (`wattsup.c`) |
| `SelList`, `SelText` | event log listing and the text file (`ipmi_sel.c`) |
| `Bytes`, `CString` | byte sums, little-endian numbers, C strings |

How it is built: a device is a state plus a finite script of events that says what becomes of each
request; a routine is a function of state and script, and a class or method with the program's own
loops is proved equal to that function. The theorems quantify over every script, so a run that the
script cuts off has a verdict of its own (`Unfinished`, `Waiting`, `Pending`), and where the C code
would leave its defined behaviour (an unsigned length below zero, a read past the image, a nineteenth
field pointer) the verdict is `Undefined`, `Broken`, `OverRead`, `Overreach`, `Overrun` or `Wild`.

What a device does and what it says are separate. A firmware target or flash may answer anything to
anything; `honest` in the state records whether it has kept its word so far (`Truthful`), and the
theorems that need it say so, next to the exact condition under which none is needed. A FRU device may
acknowledge less than it was sent (`FullAcks`) and count more than it was asked for (`modest`). A sensor
repository serves what it holds, in answers of the length asked for; everything else about its link is
free, and where an answer must come in the end the link is `Obliging`: it refuses lengths and loses
reservations that can be renewed, but never fails five times in a row.

What the proofs found, each with its exact condition in the table below:

- HPM.1 upload by a target that keeps its word delivers exactly for every run if and only if the
  interface is not LAN, or firmware or buffer have at most one byte: over LAN a lost reply is taken for a
  length error and a shorter block resent. Any 0xcc is taken for a block already held.
- A record body is read exactly under every pattern of refusals if and only if it has at most 252
  bytes: the request offset is one byte.
- `write_fru_area` never reads the count of an acknowledgement, so that a short one leaves a hole behind
  a returned 1; it returns 1 whatever the device did once offset plus length reaches 65536, and
  `read_fru_area` returns 0 likewise once they reach 2^32. A read believes the count of an answer, so that
  its 0 needs no trust in the device only if it goes to the device's end; by word, it asks for as many
  words as bytes are left.
- The multirecord walker's 16-bit count is right if and only if the chain is below 65536 bytes, the walk
  ends if and only if it ends within 65536 records, and the editor stays inside its record if and only if
  the payload has seven bytes.
- "List last n" of the event log is right for every n if and only if the ids are equally spaced modulo
  65536.
- With more than one cpu, deltas that add up to 2^64 make a denominator of the average line zero; with one
  none is.
- A record with an empty body ends the scan of the sensor repository: the lookups see the whole of it if
  and only if no supported record with a body stands behind such a one.

Where documentation and code disagree the code was followed: `write_fru_area` documents 0 for success
and returns 1; the BCD-plus decoder takes one character per byte, not two.

## Model

| member | source | states |
|---|---|---|
| SdrCache.RunIsScan | src/ipmitool-1.8.9/lib/ipmi_sdr.c:2824-3508 | For every sequence of lookups, listings and cache fills in any order, over any link that refuses lengths (0xca), loses reservations that are renewed, and serves in between (no five failures in a row), every answer given equals that of one scan of the records up to the first with an empty body; at most the first four operations can fail instead, while the iterator cannot be opened. |
| SdrScan.RunCondition | src/ipmitool-1.8.9/lib/ipmi_sdr.c:2824-3508 | Every answer of every run over every such link is that of a scan of the whole repository if and only if no supported record with a body stands behind one with an empty body. |
| SdrScan.ScanIsWhole | src/ipmitool-1.8.9/lib/ipmi_sdr.c:661-665 | The scan the cache works through is the scan of the whole repository under exactly that condition: the header of a record with an empty body is rejected and ends the iteration. |
| SdrScan.EmptyBodyHides | src/ipmitool-1.8.9/lib/ipmi_sdr.c:661-665 | A repository of two records, the first without a body, of which nothing is ever cached. |
| SdrScan.RunCompletes | src/ipmitool-1.8.9/lib/ipmi_sdr.c:2824-3508 | Over such a link one served request to open, one for each header and each piece of a record and one for each operation (five in an empty repository) complete every run with the scan's answers, whatever is refused and renewed in between; a piece is the smallest length the refusals lead to, 255 bytes if there are none. |
| SdrScan.CollectNamed | src/ipmitool-1.8.9/lib/ipmi_sdr.c:3925-3953 | Over any link the collecting loop of the dump gets exactly the records it passes, under the ids the iterator asks for; over a link that serves in the end, all up to the first empty body. |
| SdrScan.LoadedScan | src/ipmitool-1.8.9/lib/ipmi_sdr.c:3518-3656 | Loading the dump of a repository with known versions gives exactly the list a full cache would hold. |
| SdrScan.LoadedAnswers | src/ipmitool-1.8.9/lib/ipmi_sdr.c:3645-3652 | After that every lookup is answered from the file alone, whatever the link does, and as a scan of the dumped repository would. |
| SdrCache.RunAgrees | src/ipmitool-1.8.9/lib/ipmi_sdr.c:2341-2441 | Over any link at all (lost replies, refusals, lost reservations), after every operation of every run the global list is exactly the supported records of the prefix iterated, less those whose body could not be read; a lookup answers with the first match or all matches of that list, and so with a prefix of what the scan without the lost records gives, or all of it at the end. |
| SdrCache.PerformAgrees | src/ipmitool-1.8.9/lib/ipmi_sdr.c:2824-2939 | One operation keeps the cache valid and answers with exactly the first match, or all matches, of the list it leaves. |
| SdrCache.PerformServed | src/ipmitool-1.8.9/lib/ipmi_sdr.c:3665-3739 | Over a link that serves in the end one operation loses no record and answers as a scan of the records up to the first empty body does, or fails because its request to open the iterator did. |
| SdrCache.FillValid | src/ipmitool-1.8.9/lib/ipmi_sdr.c:2861-2933 | The "keep looking" loop keeps the cache valid and ends with a hit exactly if the list gained a first match. |
| SdrCache.FillServed | src/ipmitool-1.8.9/lib/ipmi_sdr.c:2861-2933 | Over such a link the loop loses nothing, and if it runs to the end the whole visible repository is cached. |
| SdrCache.TurnValid | src/ipmitool-1.8.9/lib/ipmi_sdr.c:2369-2441 | One record more: kept if of a supported type and read, dropped and remembered as lost if its body cannot be read. |
| SdrCache.NextHeaderValid | src/ipmitool-1.8.9/lib/ipmi_sdr.c:695-710 | The iterator moves one position on and nothing else changes; a failed header leaves the position. |
| SdrCache.PrefixAnswers | src/ipmitool-1.8.9/lib/ipmi_sdr.c:2840-2858 | What the cached prefix answers is a prefix of what the whole scan answers, and a first match found in it is the first match of the scan. |
| SdrCache.OpenValid | src/ipmitool-1.8.9/lib/ipmi_sdr.c:2831-2836 | Opening the global iterator once, on first use, keeps the cache valid. |
| SdrCache.TurnServed | src/ipmitool-1.8.9/lib/ipmi_sdr.c:2861-2933 | Over such a link a turn loses no record and ends the loop only at the end of the visible records. |
| SdrReader.ReadExact | src/ipmitool-1.8.9/lib/ipmi_sdr.c:2610-2696 | Under any pattern of 0xca shrinks, lost reservations and failures, a body that is returned is the record body byte for byte, for bodies of up to 252 bytes. |
| SdrReader.ReadCondition | src/ipmitool-1.8.9/lib/ipmi_sdr.c:2650-2693 | That exactness holds for every record of a length and every script if and only if the length is at most 252: the offset of a request travels in one byte and wraps for a later chunk. |
| SdrReader.LongRecordMisread | src/ipmitool-1.8.9/lib/ipmi_sdr.c:2650-2693 | A concrete script (one refusal, then service) that returns a wrong byte for every longer body whose byte 252 differs from the record id byte served in its place. |
| SdrReader.ReadEnds | src/ipmitool-1.8.9/lib/ipmi_sdr.c:2650-2693 | While two-byte reads are served the request size stays at least 2, and the number of exchanges is bounded by the lost reservations plus a measure of bytes left and request size. |
| SdrReader.RefusedGrows | src/ipmitool-1.8.9/lib/ipmi_sdr.c:2664-2668 | The refused lengths are only ever appended to. |
| SdrReader.HeaderOutcome | src/ipmitool-1.8.9/lib/ipmi_sdr.c:597-685 | A header is returned if and only if the record exists and one of the five tries is served before a reservation is lost for good; otherwise the fetch gives up, or the run ends inside it. |
| SdrReader.HeaderTries | src/ipmitool-1.8.9/lib/ipmi_sdr.c:597-685 | The fetch takes at most its tries, one request each, in order. |
| SdrReader.HeaderServed | src/ipmitool-1.8.9/lib/ipmi_sdr.c:597-685 | Over a link that serves in the end a header that exists is missed only after five failures in a row, and costs one served request. |
| SdrReader.ReadCompletes | src/ipmitool-1.8.9/lib/ipmi_sdr.c:2650-2693 | Over such a link a record is read with as many served requests as it has pieces of the smallest length the refusals lead to. |
| SdrClient.Client.GetHeader | src/ipmitool-1.8.9/lib/ipmi_sdr.c:597-685 | The retry loop computes SdrReader.GetHeader. |
| SdrClient.Client.GetNextHeader | src/ipmitool-1.8.9/lib/ipmi_sdr.c:695-710 | The iterator step as SdrCache.NextHeader. |
| SdrClient.Client.GetRecord | src/ipmitool-1.8.9/lib/ipmi_sdr.c:2610-2696 | The chunk loop with its static request size leaves the state and the body of SdrReader.GetRecord. |
| SdrClient.Client.LoadNext | src/ipmitool-1.8.9/lib/ipmi_sdr.c:2861-2933 | One turn of a "keep looking" loop: state and outcome of SdrCache.Turn. |
| SdrClient.Client.FindFirst | src/ipmitool-1.8.9/lib/ipmi_sdr.c:2824-2939 | find_sdr_bynumtype and find_sdr_byid: the cached list first, then the link; whole new state and answer as specified by SdrCache.Perform. |
| SdrClient.Client.FindAll | src/ipmitool-1.8.9/lib/ipmi_sdr.c:2944-3057 | The three list lookups: what is cached, then the rest. |
| SdrClient.Client.ListCache | src/ipmitool-1.8.9/lib/ipmi_sdr.c:3665-3739 | Filling the cache to the end. |
| SdrFile.LoadDump | src/ipmitool-1.8.9/lib/ipmi_sdr.c:3962-3989 | Loading a dump gives exactly what the records say, in order and restricted to supported types, up to the first record with an unknown version, for every sequence of records. |
| SdrFile.LoadDumpWhole | src/ipmitool-1.8.9/lib/ipmi_sdr.c:3544-3643 | The load succeeds if and only if every record with a body has a known version, and then, if no body is empty, returns every supported record with its id, type and body. |
| SdrFile.HeaderReadBack | src/ipmitool-1.8.9/lib/ipmi_sdr.c:3544-3586 | Each header field written by the dump is read back, whatever follows in the file. |
| SdrFile.LoadTruncated | src/ipmitool-1.8.9/lib/ipmi_sdr.c:3544-3595 | A file cut anywhere yields a prefix of the records of the whole file. |
| SdrFile.WriteDump | src/ipmitool-1.8.9/lib/ipmi_sdr.c:3962-3989 | The writing loop produces the specified file. |
| SdrFile.LoadFile | src/ipmitool-1.8.9/lib/ipmi_sdr.c:3544-3652 | The reading loop appends the specified entries, returns the specified code, and puts an iterator that was not there at its end. |
| HpmUpload.UploadExact | src/ipmitool-1.8.9/lib/ipmi_hpmfwupg.c:1163-1204 | On a non-LAN interface, for every script of lost, repeated, refused and shrunk blocks, an upload that ends well with a target that kept its word has made it take exactly the firmware, in blocks numbered 0, 1, 2, ... modulo 256. |
| HpmUpload.ExactUpload | src/ipmitool-1.8.9/lib/ipmi_hpmfwupg.c:1168-1203 | The same from any point of the loop, for any sender whose answer tells whether the block was taken. |
| HpmUpload.SendCmdExact | src/ipmitool-1.8.9/lib/ipmi_hpmfwupg.c:2077-2233 | With a target that keeps its word the resend loop leaves a block taken once or not at all, and the answer it settles on tells which (without the LAN workaround). |
| HpmUpload.UploadBlockExact | src/ipmitool-1.8.9/lib/ipmi_hpmfwupg.c:1639-1701 | With such a target 0, 0x80 and 0xcc count as sent only when the block is held; 0xc7 means it is not, off LAN. |
| HpmUpload.DeliveryCondition | src/ipmitool-1.8.9/lib/ipmi_hpmfwupg.c:2106-2132 | Exact delivery for every run in which the target keeps its word holds if and only if the interface is not LAN, the firmware has at most one byte, or the buffer has. |
| HpmUpload.TrustCondition | src/ipmitool-1.8.9/lib/ipmi_hpmfwupg.c:1665-1695 | It needs no trust in the target if and only if there is nothing to send or no buffer to send it from: the agent takes any 0xcc for sent. |
| HpmUpload.KnownUploadCompletes | src/ipmitool-1.8.9/lib/ipmi_hpmfwupg.c:1665-1695 | A target that answers 0xcc to everything gets the agent through without taking a byte. |
| HpmUpload.LanDuplicates | src/ipmitool-1.8.9/lib/ipmi_hpmfwupg.c:2106-2132 | Over LAN, for every firmware and buffer of two bytes or more, a single lost answer makes a target that keeps its word take a byte twice while the agent reports success. |
| HpmUpload.OneByteExact | src/ipmitool-1.8.9/lib/ipmi_hpmfwupg.c:2106-2132 | A one-byte firmware survives even the LAN workaround, if the target keeps its word. |
| HpmUpload.OneByteBuffer | src/ipmitool-1.8.9/lib/ipmi_hpmfwupg.c:1193-1198 | So does any firmware sent from a one-byte buffer: after a length error nothing gets through. |
| HpmUpload.AnsweredUploadCompletes | src/ipmitool-1.8.9/lib/ipmi_hpmfwupg.c:1168-1203 | If every request is answered the upload completes, within as many events as bytes. |
| HpmUpload.RefusalsShrink | src/ipmitool-1.8.9/lib/ipmi_hpmfwupg.c:1193-1198 | Each 0xc7 shortens the buffer by one byte and nothing else. |
| HpmUpload.EmptyBlocksNeverFinish | src/ipmitool-1.8.9/lib/ipmi_hpmfwupg.c:1193-1198 | Once the buffer has shrunk to zero the loop can never report success. |
| HpmStage.UpgradeDelivers | src/ipmitool-1.8.9/lib/ipmi_hpmfwupg.c:1021-1227 | For every image laid out by the specification and every non-LAN run with a target that keeps its word, a stage that succeeds has stored exactly the image's firmwares in order, and the cursor stops at the MD5 trailer. |
| HpmStage.StageDelivers | src/ipmitool-1.8.9/lib/ipmi_hpmfwupg.c:1021-1227 | For any image bytes and such a target: success means every action record up to the trailer was visited once and each upload stored its bytes. |
| HpmStage.WalkEncoded | src/ipmitool-1.8.9/lib/ipmi_hpmfwupg.c:1030-1052 | The walker reads an encoded action list back as those actions and ends exactly at the trailer. |
| HpmStage.ReadEncoded | src/ipmitool-1.8.9/lib/ipmi_hpmfwupg.c:1116-1166 | Each action record, firmware header and three-byte length is read back. |
| HpmAgent.CalculateChecksum | src/ipmitool-1.8.9/lib/ipmi_hpmfwupg.c:2283-2293 | The 8-bit sum of the bytes. |
| HpmAgent.UpgradeAgent.Send | src/ipmitool-1.8.9/lib/ipmi_hpmfwupg.c:2077-2233 | The resend loop computes SendCmd, link state included. |
| HpmAgent.UpgradeAgent.UploadFirmwareBlock | src/ipmitool-1.8.9/lib/ipmi_hpmfwupg.c:1639-1701 | One block: result code and link state as UploadBlock. |
| HpmAgent.UpgradeAgent.UploadFirmware | src/ipmitool-1.8.9/lib/ipmi_hpmfwupg.c:1163-1204 | The block loop over cursor, buffer length and block number computes Upload. |
| HpmAgent.UpgradeAgent.UpgradeStage | src/ipmitool-1.8.9/lib/ipmi_hpmfwupg.c:1021-1227 | The action loop computes Stage: verdict, cursor, stored images and link state. |
| KfwumUpload.UploadDelivers | src/ipmitool-1.8.9/lib/ipmi_fwum.c:1238-1310 | For every script of lost replies, shrinking, 0x82 duplicates and roll-backs, an upload that ends well with a device that kept its word leaves flash [0, size) equal to the file and nothing past it changed. |
| KfwumUpload.UploadConfined | src/ipmitool-1.8.9/lib/ipmi_fwum.c:1238-1310 | Whatever the device answers, no run changes anything past the end of the file, or inside it to anything but the file, and the configured payload never drops to zero. |
| KfwumUpload.TrustCondition | src/ipmitool-1.8.9/lib/ipmi_fwum.c:1238-1310 | A successful upload can be believed without trust in the device if and only if the flash holds the file already. |
| KfwumUpload.DownloadChecksum | src/ipmitool-1.8.9/lib/ipmi_fwum.c:979-1031 | After a successful upload by a device that kept its word the flash is the file followed by the old contents, and the byte sum over the announced length plus the announced padding is 0 modulo 65536. |
| KfwumUpload.UploadFits | src/ipmitool-1.8.9/lib/ipmi_fwum.c:1250-1301 | Every request of every run stays inside the file, carries at least one byte of room, and crosses a page only if a full one would pass the end; the length underflows only after an empty block was sent and refused. |
| KfwumUpload.SaveFits | src/ipmitool-1.8.9/lib/ipmi_fwum.c:1065-1188 | The same through the resend loop of one block. |
| KfwumUpload.SaveHolds | src/ipmitool-1.8.9/lib/ipmi_fwum.c:1051-1188 | One block: flash still holds the file so far whatever happens, and the block too if a device that kept its word lets it be reported saved. |
| KfwumUpload.ExchangeHolds | src/ipmitool-1.8.9/lib/ipmi_fwum.c:1071-1089 | A request for file bytes can only bring flash nearer to the file, and a true 0 or 0x82 means that the block is there. |
| KfwumUpload.AfterHolds | src/ipmitool-1.8.9/lib/ipmi_fwum.c:1269-1299 | Roll-back to the last address, length reduction and advance keep what is known of the flash. |
| KfwumUpload.RoundHolds | src/ipmitool-1.8.9/lib/ipmi_fwum.c:1250-1301 | One turn of the upload loop keeps it. |
| KfwumUpload.WriteSizeFits | src/ipmitool-1.8.9/lib/ipmi_fwum.c:1252-1263 | The clipping, end of file before end of page, yields a request that fits. |
| KfwumUpload.PaddingCompletes | src/ipmitool-1.8.9/lib/ipmi_fwum.c:600-614 | Byte sum plus padding is 0 modulo 65536. |
| KfwumUpload.StartAnnounces | src/ipmitool-1.8.9/lib/ipmi_fwum.c:979-1031 | The start request carries the length and padding and both are read back from its bytes. |
| KfwumUpload.AcknowledgedUploadCompletes | src/ipmitool-1.8.9/lib/ipmi_fwum.c:1238-1310 | If every request is acknowledged the upload succeeds within as many events as bytes, even with a device that programs nothing. |
| KfwumAgent.CalculateChecksumPadding | src/ipmitool-1.8.9/lib/ipmi_fwum.c:600-614 | The 16-bit running sum, negated, is the padding. |
| KfwumAgent.Fwum.SaveFirmwareImage | src/ipmitool-1.8.9/lib/ipmi_fwum.c:1051-1188 | The block loop with its in/out length computes Save: status, remaining length, link state. |
| KfwumAgent.Fwum.Advance | src/ipmitool-1.8.9/lib/ipmi_fwum.c:1269-1299 | The bookkeeping after a block computes After, bufferSize included. |
| KfwumAgent.Fwum.UploadFirmware | src/ipmitool-1.8.9/lib/ipmi_fwum.c:1238-1310 | The upload loop computes Upload: status, bufferSize, flash and request log. |
| TurbostatLoop.Machine.ReInitialize | src/tstat/turbostat.c:718-725 | Whatever the lists held, afterwards the three are acyclic, disjoint, sorted by package, core and cpu, hold the same keys (the cpus inserted in order) and have num_cpus nodes. |
| TurbostatLoop.Machine.AllocNewCounters | src/tstat/turbostat.c:600-647 | One node more in each of the three lists, still aligned, sorted and disjoint. |
| TurbostatLoop.Machine.ForAllCpus | src/tstat/turbostat.c:687-714 | Every cpu inserted, counted; the lists stay aligned throughout. |
| TurbostatLoop.ComputeDelta | src/tstat/turbostat.c:281-401 | On aligned lists the walk never reports a changed configuration, stops exactly if some pair is too slow, and otherwise leaves every delta. |
| TurbostatLoop.WalkTogether | src/tstat/turbostat.c:281-401 | The walk along three aligned lists visits pair after pair; the cpu mismatch return is unreachable. |
| TurbostatLoop.ComputeAverage | src/tstat/turbostat.c:403-439 | The summing walk with 64-bit wrap computes the averages. |
| TurbostatLoop.GetCounters | src/tstat/turbostat.c:441-468 | Every node of a list gets the reading of its cpu. |
| TurbostatLoop.Machine.SampleTurn | src/tstat/turbostat.c:758-776 | A half of the loop body: the even/odd double buffer does what a previous/current pair does. |
| TurbostatLoop.Machine.OneTurn | src/tstat/turbostat.c:751-776 | One turn keeps the lists valid and refines the reference turn, restart included. |
| TurbostatMain.Loop | src/tstat/turbostat.c:745-777 | Every run of the program, across any number of re-initialisations, keeps the lists valid and prints exactly the reports of the reference run. |
| Turbostat.SteadyReports | src/tstat/turbostat.c:745-777 | In every restart-free run each printed delta list is the latest snapshot minus the one just before it. |
| Turbostat.Telescopes | src/tstat/turbostat.c:281-401 | Over a restart-free run the printed deltas of a cpu and counter sum to last minus first modulo 2^64, for every counter that is a plain difference. |
| Turbostat.DeltaRecovers | src/tstat/turbostat.c:277-347 | For tsc, aperf, c3, c6, c7 and the package counters, the earlier reading plus the delta is the later reading modulo 2^64, even across a wrap. |
| Turbostat.DeltaConserves | src/tstat/turbostat.c:366-385 | The mperf, c1, c3, c6 and c7 cycles of a delta add up to its tsc cycles modulo 2^64, unless mperf exceeds tsc, when c1 is 0. |
| Turbostat.DeltaDenominators | src/tstat/turbostat.c:302-311 | A delta that is not rejected has tsc at least 1,000,000 and mperf at least 1. |
| Turbostat.MeanBounds | src/tstat/turbostat.c:403-439 | While the sum stays below 2^64 every average lies between the per-cpu minimum and maximum. |
| Turbostat.AverageDenominators | src/tstat/turbostat.c:188-263 | While the sums do not wrap no denominator of the average line is zero, for any number of cpus. |
| Turbostat.DenominatorCondition | src/tstat/turbostat.c:403-439 | Both denominators of the average line are nonzero for every pair of accepted snapshots of n cpus if and only if n is 1: with more, deltas can add up to 2^64. |
| Turbostat.MeanZero | src/tstat/turbostat.c:412-437 | A field of the average line is zero if and only if its sum modulo 2^64 is less than the number of cpus. |
| CounterList.InsertSorted | src/tstat/turbostat.c:546-598 | The insertion keeps a sorted key sequence sorted and adds exactly the new key. |
| CounterList.InsertAllSorted | src/tstat/turbostat.c:687-714 | Inserting any cpus in any order gives a sorted sequence that is a permutation of old and new. |
| CounterList.InsertSplits | src/tstat/turbostat.c:563-596 | There is one place the insertion uses: everything before is not greater, everything behind is. |
| CounterList.List.InsertCounters | src/tstat/turbostat.c:546-598 | The linked insertion leaves an acyclic list whose keys are the specified insertion and whose nodes are the old ones and the new one. |
| CounterList.List.Walk | src/tstat/turbostat.c:578-592 | The three while loops stop at the node behind which the key belongs. |
| CounterList.List.Free | src/tstat/turbostat.c:518-544 | The freeing walk passes every node once, in order, and looks at none again; the list is then empty. |
| FruTransfer.WriteOutcome | src/ipmitool-1.8.9/lib/ipmi_fru.c:191-261 | Every run whose end offset does not wrap, byte or word access: only the destination can change, and only to the source; 1 comes back if and only if every request was acknowledged; and then each byte is the source's exactly if the request that carried it stored it. |
| FruTransfer.WriteExact | src/ipmitool-1.8.9/lib/ipmi_fru.c:191-261 | If the device stores all of what it acknowledges, a returned 1 means that the source is in place and nothing else changed. |
| FruTransfer.ShortAcknowledgement | src/ipmitool-1.8.9/lib/ipmi_fru.c:241-258 | A returned 1 is untrue for some source and device if and only if all requests of the run are acknowledged and some byte of one was not stored: the count in the answer is never read. |
| FruTransfer.WriteCondition | src/ipmitool-1.8.9/lib/ipmi_fru.c:206-211 | With full acknowledgements a returned 1 can be believed for every source, device and run if and only if offset plus length stays below 65536 and the destination exists, or the request is rejected. |
| FruTransfer.WrappedWriteReturns | src/ipmitool-1.8.9/lib/ipmi_fru.c:203-261 | If the 16-bit end wraps, 1 comes back although a refused first request stored nothing. |
| FruTransfer.LandsAtOffset | src/ipmitool-1.8.9/lib/ipmi_fru.c:220-223 | With full acknowledgements the bytes land at the offset asked for, for every successful run, if and only if access is by byte or the offset is even. |
| FruTransfer.WriteLoopLands | src/ipmitool-1.8.9/lib/ipmi_fru.c:219-259 | The same account of the device from any point of the write loop. |
| FruReader.ReadOutcome | src/ipmitool-1.8.9/lib/ipmi_fru.c:275-358 | For every device behaviour, any access and any offset: the buffer has the device bytes up to the offset reached and is untouched elsewhere, 0 at the end means the end was reached, and the exchanges are bounded by bytes left plus request size. Access by word from an odd offset brings the bytes from one before it. |
| FruReader.ReadExact | src/ipmitool-1.8.9/lib/ipmi_fru.c:275-358 | With byte access and answers that count no more than was asked, a read that says so is exact and never leaves its stretch. |
| FruReader.ReadCondition | src/ipmitool-1.8.9/lib/ipmi_fru.c:291-296 | With such answers the 0 of a finished read can be believed for every device and run if and only if offset plus length stays below 2^32 or there is nothing to read. |
| FruReader.TrustCondition | src/ipmitool-1.8.9/lib/ipmi_fru.c:291-353 | By byte, the 0 of a finished read can be believed whatever the answers count, for every device, buffer and run, if and only if the read goes to the announced end without a 32-bit wrap or there is nothing to read: the count of an answer is believed. |
| FruReader.WordCondition | src/ipmitool-1.8.9/lib/ipmi_fru.c:318-353 | By word, with answers that count no more words than asked for, the 0 can be believed if and only if there is nothing to read, or the end does not wrap and the read goes up to the device end from an even offset (or never gets there), is empty, or is an even stretch from an even offset of which a word more does not exist or single words are asked for: bytes left are sent as a count of words. |
| FruReader.WordTrustCondition | src/ipmitool-1.8.9/lib/ipmi_fru.c:318-353 | By word, whatever the answers count, exactly if the read goes up to the device end in that way, or ends one byte before it and is empty or an even stretch from an even offset. |
| FruReader.Finishing | src/ipmitool-1.8.9/lib/ipmi_fru.c:314-358 | For any number of single units and a last answer of one or two that reaches the end, some run ends with 0 at just that offset, whatever the static request size. |
| FruReader.ReadLoopReaches | src/ipmitool-1.8.9/lib/ipmi_fru.c:314-357 | The invariant of the read loop and its bound, from any point of it. |
| FruReader.ReadBack | src/ipmitool-1.8.9/lib/ipmi_fru.c:275-358 | A device that holds a stretch where a write to an offset puts it gives it back to every finished read from that offset, by byte or word. |
| FruReader.WriteThenRead | src/ipmitool-1.8.9/lib/ipmi_fru.c:191-358 | What a successful write with full acknowledgements stored, a finished read of the same range returns, for every pair of runs, any access and any offset. |
| FruPort.Port.WriteArea | src/ipmitool-1.8.9/lib/ipmi_fru.c:191-261 | The write loop with its 16-bit offset computes Write: result, device and replies left, for any announced size. |
| FruPort.Port.ReadArea | src/ipmitool-1.8.9/lib/ipmi_fru.c:275-358 | The read loop fills the caller's buffer in place as Read says, byte or word access, static request size included, and tells an answer that does not fit the buffer apart. |
| FruMultiRecord.EditPassChain | src/ipmitool-1.8.9/lib/ipmi_fru.c:1663-1718 | Editing the bytes of a chain is editing its records: the result is again a chain with every checksum right, same types, lengths and places, other records and following bytes intact. |
| FruMultiRecord.EditedChainWalks | src/ipmitool-1.8.9/lib/ipmi_fru.c:1841-1892 | After any edit of a chain below 64 KiB the walker accepts it and returns exactly its length. |
| FruMultiRecord.EditRecordsShape | src/ipmitool-1.8.9/lib/ipmi_fru.c:880-961 | An edit changes no type, flag or length and no record but activation records. |
| FruMultiRecord.EditCondition | src/ipmitool-1.8.9/lib/ipmi_fru.c:889-914 | The record length is not looked at: an edit stays inside its record, whatever is entered, if and only if the payload has at least seven bytes. |
| FruMultiRecord.ResealEncodes | src/ipmitool-1.8.9/lib/ipmi_fru.c:929-955 | Recomputing the payload checksum and then the header checksum gives the encoding of the record, whatever the checksums were. |
| FruMultiRecord.RecordAt | src/ipmitool-1.8.9/lib/ipmi_fru.c:929-955 | In an encoded record payload plus record checksum, and the five header bytes, each sum to 0 modulo 256. |
| FruMultiRecord.WalkChain | src/ipmitool-1.8.9/lib/ipmi_fru.c:1841-1892 | The walker accepts every well-formed chain below 64 KiB and counts exactly its bytes, whatever follows. |
| FruMultiRecord.WalkCondition | src/ipmitool-1.8.9/lib/ipmi_fru.c:1847-1885 | The measured size is the size if and only if the chain is shorter than 65536 bytes: the count has 16 bits. |
| FruMultiRecord.WalkEnds | src/ipmitool-1.8.9/lib/ipmi_fru.c:1847-1887 | The walk over any bytes ends if and only if it ends within 65536 records, and then the same way for any more: the 16-bit count must come back by then. |
| FruMultiRecord.WalkContinues | src/ipmitool-1.8.9/lib/ipmi_fru.c:1847-1887 | A walk is unfinished after some records exactly if every count it came to held a good header without the end flag. |
| FruMultiRecord.WalkEndless | src/ipmitool-1.8.9/lib/ipmi_fru.c:1847-1887 | For example, a stretch of exactly 65536 bytes without an end flag sends the walker round for ever. |
| FruEditor.AdjustSize | src/ipmitool-1.8.9/lib/ipmi_fru.c:1841-1892 | The walking loop computes the measure, and has not ended after 65536 records exactly if it never does. |
| FruEditor.UpdateChecksums | src/ipmitool-1.8.9/lib/ipmi_fru.c:929-955 | Both sums are computed and stored in place. |
| FruEditor.ExtEdit | src/ipmitool-1.8.9/lib/ipmi_fru.c:880-961 | One record: the two bytes entered are stored and the record sealed, or nothing changes. |
| FruEditor.EditArea | src/ipmitool-1.8.9/lib/ipmi_fru.c:1663-1718 | The loop over the records of a loaded area, in place. |
| FruText.GroupSextets | src/ipmitool-1.8.9/lib/ipmi_fru.c:145-164 | Working three bytes at a time, zero-padded, gives those bits. |
| FruText.SizeExact | src/ipmitool-1.8.9/lib/ipmi_fru.c:108-111 | The allocation formula is exactly 4*ceil(len/3). |
| FruText.SixBit | src/ipmitool-1.8.9/lib/ipmi_fru.c:145-164 | The shifting loop gives 4*ceil(len/3) characters, and character j is 0x20 plus bits 6j to 6j+5 of the little-endian byte stream. |
| FruText.CharactersDetermine | src/ipmitool-1.8.9/lib/ipmi_fru.c:145-164 | No two strings of equally many bytes have the same characters. |
| FruText.AreaString | src/ipmitool-1.8.9/lib/ipmi_fru.c:82-176 | For each of the four encodings the string and, always, an offset advanced by 1 + len. |
| LanParam.RunBounded | src/ipmitool-1.8.9/lib/ipmi_lanp.c:358-422 | For any device, a run is over after 31 exchanges with at most 3 lock writes, 11 data writes and 11 read-backs; its last two commands are commit and unlock. |
| LanParam.RunConfirms | src/ipmitool-1.8.9/lib/ipmi_lanp.c:209-251 | 0 is returned if and only if a read-back after the first data write and before the commit equalled the requested data. |
| LanParam.RunUnique | src/ipmitool-1.8.9/lib/ipmi_lanp.c:268-322 | The description of a run leaves no choice: a device's behaviour determines the commands and the result. |
| LanParam.Bmc.Wait | src/ipmitool-1.8.9/lib/ipmi_lanp.c:209-251 | Read-backs until one matches, at most eleven. |
| LanParam.Bmc.Write | src/ipmitool-1.8.9/lib/ipmi_lanp.c:268-322 | One write, or after 0xcc up to ten more until one is accepted. |
| LanParam.Bmc.Lock | src/ipmitool-1.8.9/lib/ipmi_lanp.c:358-375 | Lock-state reads with at most three lock writes between them. |
| LanParam.Bmc.SetLanParam | src/ipmitool-1.8.9/lib/ipmi_lanp.c:413-422 | Every run is lock, writes, read-backs, commit, unlock as described. |
| WattsUp.RoundTrip | src/wattsup/wattsup.c:493-637 | Parsing gives back what was written if and only if command and sub-command are neither comma nor NUL and no field holds a separator or starts with white space, for every packet of 1 to 18 C-string fields. |
| WattsUp.ZeroFields | src/wattsup/wattsup.c:595-603 | A packet without parameters is given back if and only if its sub-command is a comma and its command not NUL; with neither a comma it does not parse, having no third one. |
| WattsUp.WrittenBounded | src/wattsup/wattsup.c:505-515 | An accepted packet never exceeds 253 characters. |
| WattsUp.ReadParams | src/wattsup/wattsup.c:612-634 | The parameter loop takes the text of any clean fields apart again. |
| WattsUp.ParsedClean | src/wattsup/wattsup.c:612-634 | No input whatever yields a field with a separator or leading white space. |
| WattsUp.AtoiDigits | src/wattsup/wattsup.c:502-600 | The count printed in decimal is the count read. |
| WattsUpPort.Port.Write | src/wattsup/wattsup.c:493-523 | The buffer is filled to exactly the specified text, or nothing is sent, by the overflow test. |
| WattsUpPort.Port.ParsePacket | src/wattsup/wattsup.c:537-637 | The buffer is cut in place; each field pointer points to the specified string in it, and success, failure and the stores behind a full buffer or pointer array are told apart. |
| WattsUpPort.Port.ReadParameters | src/wattsup/wattsup.c:612-634 | The in-place loop keeps every string already found while it cuts the next. |
| SelList.LastListed | src/ipmitool-1.8.9/lib/ipmi_sel.c:1436-1502 | "List last n" lists the last min(n, entries) records if and only if counting back from the last record in steps of the first distance hits the right id (0 standing for the first record). |
| SelList.LastCondition | src/ipmitool-1.8.9/lib/ipmi_sel.c:1436-1502 | "List last n" is right for every n if and only if consecutive ids differ by the first distance modulo 65536, a single record included (no request failing twice in a row). |
| SelList.FirstListed | src/ipmitool-1.8.9/lib/ipmi_sel.c:1471-1502 | "List first n" lists exactly the first min(n, entries) records, and 0 lists all, if no request fails twice in a row. |
| SelList.FromIsStretch | src/ipmitool-1.8.9/lib/ipmi_sel.c:1471-1502 | A listing never skips, repeats or reorders, and is complete if no request fails twice in a row. |
| SelList.GapMisleads | src/ipmitool-1.8.9/lib/ipmi_sel.c:1452-1464 | The ids 1, 2, 4 asked for the last two list nothing. |
| SelList.Sel.GetEntry | src/ipmitool-1.8.9/lib/ipmi_sel.c:759-864 | Next id of a request, with the record left in the buffer; 0 when it fails, the buffer untouched, or when the device says 0. |
| SelList.Sel.ListFrom | src/ipmitool-1.8.9/lib/ipmi_sel.c:1471-1502 | The listing loop with its one retry computes the specified listing. |
| SelList.ShowsListed | src/ipmitool-1.8.9/lib/ipmi_sel.c:1388-1508 | If the two requests before the listing succeed, and for the last entries the three more, what is shown is the listing characterised above. |
| SelList.Sel.List | src/ipmitool-1.8.9/lib/ipmi_sel.c:1388-1508 | The whole listing: the requests before it that return -1 when they fail, the starting point computed from two entries, stale or missing if they cannot be read, and the loop. |
| SelText.SaveLoad | src/ipmitool-1.8.9/lib/ipmi_sel.c:866-895 | Saving any log as text and loading the file adds the same events in the same order, up to the first the device does not accept, whatever the comments, as long as each line fits the 1024-byte buffer. |
| SelText.LineRoundTrip | src/ipmitool-1.8.9/lib/ipmi_sel.c:344-375 | A line gives back its seven bytes, whatever comment follows the hash mark. |
| SelText.EventRoundTrip | src/ipmitool-1.8.9/lib/ipmi_sel.c:381-386 | Event type and direction are joined into one byte and split again as before. |
| SelText.NumberToken | src/ipmitool-1.8.9/lib/ipmi_sel.c:369-374 | The base-0 number reader gives back every byte printed with 0x and two digits. |
| SelText.FirstLine | src/ipmitool-1.8.9/lib/ipmi_sel.c:344-345 | A line that fits is read whole. |
| SelText.ReadLine | src/ipmitool-1.8.9/lib/ipmi_sel.c:347-379 | Clipping, trimming and the token loop compute the parsed line. |
| SelText.LoadFile | src/ipmitool-1.8.9/lib/ipmi_sel.c:344-392 | The file loop, to the end of the file or to a rejected event, computes the events added. |

## Left out

- Sockets, sessions, file opening, sleeping and the choice of device: a request's fate is one script event.
- HPM.1 time-outs: the 8-bit counters and the clock are the event's `expired` flag; component checks, Prepare, Finish and the status polling of a long command are one event each.
- The MD5 comparison of an HPM.1 image, the preparation and the activation stage.
- After a failed Prepare or Finish the C code has moved its image cursor on; nothing reads it, and the model leaves it.
- KfwumUpload.UploadDelivers: files below 16 MiB, since addresses travel in three bytes; the program reads its file into a buffer of 512 KiB.
- KFWUM sequence mode, the choice of buffer sizes from device information, and the finish and upgrade commands.
- ipmi_sdr_start is one event, and the repository info it reads is not modelled; a header reply that is an error five times over is taken as a zero-filled buffer, which the code rejects for its length of 0.
- SdrScan.Collect: the collecting loop of ipmi_sdr_dump_bin is a function, not a method over the global list it appends to, and starts from an empty list.
- Records are unchanged while they are read; printing, thresholds and the floating-point sensor conversion.
- turbostat printing, time stamps, processor feature tests and dump_tstat.c, which is a near copy. Node counters are kept as a sequence beside the linked nodes, so that the links alone are heap; cnt_average is one sample.
- TurbostatMain.Loop: every count of cpus seen is at least 1, since the C code divides by it.
- FruEditor.EditArea: the area is loaded; the chunked loading between records and the write-back of each changed record are FruTransfer's subject, not composed here. What is printed beside the edit, some of it read from behind the two bytes, is left out.
- FruText.AreaString: the string is returned as a value; an allocation failure is not modelled.
- SelList.Start: the product of count and distance is an int in the C code and can overflow in a long log whose first two ids lie far apart; here it is unbounded.
- SelText.ReadLine: works on values; the buffer the C code trims and tokenises in place is a sequence here. Text with embedded NULs is left out.
- WattsUpPort.Port.Write: the initial clearing of the buffer, which nothing depends on.
- Option parsing, usage text, string tables, the load generators, and the firewall, channel and vendor modules: no state worth an invariant.
