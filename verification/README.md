# A verified model of ESP-MDF's protocols

This project models the parts of ESP-MDF that are protocols or algorithms of its own and proves
what they guarantee, over all inputs and all runs. Where the code does not guarantee what one
would expect, the condition under which it does is proved as an equivalence, with a run or an
input that shows the failure.

The modules come in pairs. Functions on values say what an operation does to the state, and
lemmas about them state the properties. Classes and methods (`*Device`, `*Sender`, `HttpServer`,
`Bitmap`, `Addresses`, `Flash`, `KmpSearch`) are the code as it runs, with fields, arrays and
loops, each proved to do what those functions say.

| modules | what they are about |
|---|---|
| `UpgradeNode`, `UpgradeInvariant`, `UpgradeRuns`, `UpgradeDevice` | one device of a mesh upgrade: its bitmap, its byte count, its flash and its snapshots, over all runs |
| `UpgradeResume`, `UpgradeLimits`, `UpgradeDrift` | when resuming from a snapshot is sound, how far byte count and bitmap can drift apart otherwise, and what comes of it |
| `UpgradeRoot`, `UpgradeMessages`, `UpgradeAccounting`, `UpgradeCoverage`, `UpgradeEnding`, `UpgradeSender` | the root: what a message does, who is left, what is sent, what a status request means, how it ends |
| `UpgradeOutcome`, `UpgradeRounds` | requests, completion, stopping, addressing; a round and two rounds without losses |
| `UpgradeSystem`, `UpgradeSafety`, `UpgradeProgress`, `UpgradeTraces` | root, devices and network together, as steps in any order: accounting, safety, progress, the root's code as such steps, and where safety ends |
| `Bitmap`, `Addresses`, `Flash` | the bit macros, `addrs_remove` and writing to NOR flash |
| `KmpSearch` | `kmp_next` and `kmp_find` |
| `Espnow`, `EspnowDelivery`, `EspnowLossless`, `EspnowLimits`, `EspnowDevice` | ESP-NOW pipes: fragments, retries, duplicates, and reassembly while frames arrive; safety, delivery and where they end |
| `MwifiFragments`, `MwifiMulticast`, `MwifiDelivery`, `MwifiDevice` | mesh messages: fragments, multicast by splitting the address list down the tree, flooding |
| `FlashLog`, `FlashLogDevice` | the two-segment log on flash as a FIFO |
| `HttpChunks`, `HttpServer` | collecting several answers in one chunked HTTP response, against a decoder for section 7.1 of RFC 9112 |

## What the code does not guarantee

- **Resuming an upgrade** (`mupgrade_node.c:103-104, 206-207`). A snapshot starts at the config
  header but is only as long as status and bitmap, so the last 16 bytes of the bitmap are not
  saved. `ResumeSoundIff`: byte count and bitmap agree in all runs iff the image has at most 3968
  packets (or the report interval is so large that only the initial, empty snapshot is taken).
  Otherwise packet 3968 is counted again after a restart, and that may make up for packets that
  are missing. `CanDrift` says when: a finite search over image size and report interval. It is
  always possible if packet 3968 is a full one and the interval below 100 percent (`FullDrifts`),
  and never if packet 3968 is the last one with an odd number of at least 45 bytes
  (`OddSizesAreSafe`). `SystemSafeIff`: exactly then can an incomplete
  image be selected for booting. `SuccessHonestIff`: exactly then can the root count such a device
  as successful (`FalseSuccess` is the run). The opposite happens as well: a device
  that holds every packet and never completes (`StuckDevice`).
- **The completion test while sending** (`mupgrade_root.c:427`) asks for `written_size` to be 0 and
  equal to `total_size`, so it is true only for an image of size 0. Completion reports read there
  are dropped; `MidStepAccounts` shows that nobody becomes successed there. They are learned again
  in a later status request.
- **`kmp_find`** stops at `src_size - target_size` (`mupgrade_check.c:174`) although `i` is where a
  match ends. `SearchExactIff`: it finds every occurrence iff the target is one byte or does not fit.
- **ESP-NOW frames that are acknowledged but not queued**, because the queue is full or because a
  damaged first copy makes the receiver drop all intact retries. `SafeIff`: messages of a single
  frame survive this and no others do, whatever the capacity; a read can return half of one
  message and half of the next.
- **Messages that are too long.** `RoundTripIff` in both protocols: 256 frames for ESP-NOW, 8191
  bytes for the mesh. Multicast has to fit the addresses in as well, and their number into 10
  bits: `MulticastIff` gives the condition, child by child.
- **Mesh readers after a loss.** `__mwifi_read` keeps fragment 0 of the next message but expects
  fragment 0 again, so that only a single-fragment message survives (`ResyncLaw`);
  `__mwifi_root_read` glues what follows to such a message (`RootResyncLaw`).
- **The duplicate filter of `__mwifi_read`** comes after the sequence check. `RepeatedFragmentIff`:
  a fragment received twice in a row costs the message unless it is the last one.
- **The flash log** does not count the timestamp when it decides whether to rotate.
  `WriteKeepsInvIff`: a write succeeds within its segment iff chunk and timestamp fit together;
  otherwise the first segment spills into the second (`SpillDamages`) or the write is refused
  (`RefusedMeaning`).
- **A slot for no destination** (`mlink_httpd.c:201-208`) is not freed by an answer
  (`NoDestinations`): the counter wraps around.

## Assumptions

Upgrade
- One transfer, identified by name and total size, with an image of 1 byte to 4096 * 1024 bytes.
  Data packets come from the root, target addresses are distinct.
- There are two application partitions. `esp_ota_begin` erases the update partition; it, saving to
  NVS and setting the boot partition for the root succeed. For a node the outcome of
  `esp_ota_set_boot_partition` at completion is arbitrary. NVS entries are written atomically, flash
  writes may be cut short at any bit.
- The root itself does not reboot.
- Messages are never removed from the network and may be read any number of times in any order;
  that covers loss, repetition and reordering. What a wait on a queue yields is an argument of the
  root's functions.
- `mupgrade_firmware_stop` is modelled by the packet before which it takes effect.

ESP-NOW: one sender per pipe, each wait sees the callback of its own send, something has arrived of
an acknowledged frame, and neighbouring magics differ. Received copies are intact and the queue has
room for every frame where a lemma says `Strict`; `SafeIff` says what is left without that. The
checksum is any function; a damaged copy has its magic intact and a checksum that does not match.

Mesh: links are reliable and in order, neighbouring magics differ, the tree does not change during
a message. `esp_mesh_recv` hands over whole packets.

Flash log: the flash behaves as NOR flash; writes outside the partition are refused, others succeed.

HTTP: each send works or fails as a whole.

## Model

| member | source | states |
|---|---|---|
| `UpgradeSafety.SuccessMeansInstalled` | components/mupgrade/mupgrade_root.c:174-317 | end-to-end safety: in every run, with loss, repetition and reordering of all messages, stops, interrupted flash writes and, unless the count can be made up (`CanDrift`), restarts, whoever is on the successed list sent a report while bytes [0, total_size) of its update partition were exactly the root's image, with that partition selected for booting; `SuccessHonestIff` shows that the condition is exact |
| `UpgradeSafety.OnlyCompleteImagesBoot` | components/mupgrade/mupgrade_node.c:215-245 | in every such run each device runs either what it ran at the start or the complete image, and its boot selection never points to anything else; `SystemSafeIff` shows that the condition is exact |
| `UpgradeSafety.RunSafe` | components/mupgrade/mupgrade_node.c:23-315 | with restarts, the invariant behind both over whole runs: each device keeps count and bitmap in step or within the books of `UpgradeLimits`, and complete reports are sent only with the image in place |
| `UpgradeSystem.TargetsAccountedFor` | components/mupgrade/mupgrade_root.c:193-294 | at every point of every run, restarts of any kind included, the targets are the disjoint union of the unfinished, the successed and those whose own report said that they had stopped; no list holds anyone twice |
| `UpgradeSystem.SuccessMeansSelected` | components/mupgrade/mupgrade_node.c:215-245 | in every run, restarts of any kind included, whoever is on the successed list had selected the new partition for booting when it sent its completion report |
| `UpgradeSystem.ReportsInTransit` | components/mupgrade/mupgrade_node.c:110-132 | in every run, restarts of any kind included, any report that is neither empty nor complete carries its bitmap |
| `UpgradeSystem.ReportsShowGaps` | components/mupgrade/mupgrade_node.c:110-132 | where restarts leave count and bitmap in step (at most 3968 packets or an interval of 100 percent) or none occur, any incomplete report shows a packet that is missing; elsewhere `StuckDevice` is a counterexample |
| `UpgradeTraces.SystemSafeIff` | components/mupgrade/mupgrade_node.c:196-245 | for every image size and every report interval: in all runs of all systems, restarts included, only complete images are selected for booting, if and only if the count cannot be made up (`CanDrift`) |
| `UpgradeTraces.SuccessHonestIff` | components/mupgrade/mupgrade_root.c:193-294 | and exactly then whoever is on the successed list has sent a report while its update partition held the image |
| `UpgradeTraces.FalseSuccess` | components/mupgrade/mupgrade_root.c:193-217 | otherwise a run in which the root counts its only target as successful although no report was ever sent with the image in place and the device has selected an incomplete image |
| `UpgradeTraces.SendRefines` | components/mupgrade/mupgrade_root.c:395-490 | in any run of the system in which what the root does are the actions of mupgrade_firmware_send, with the devices sending and receiving in between, the root ends up as `SendRounds` says and the packets on the network are those it sends |
| `UpgradeTraces.RequestRefines` | components/mupgrade/mupgrade_root.c:174-317 | the same for a status request, whose answers may be sent after it |
| `UpgradeTraces.NextActionIff` | components/mupgrade/mupgrade_root.c:395-490 | in the middle of mupgrade_firmware_send the next action of the root is a possible step of the system exactly if the message that it reads, if any, has been sent by then |
| `UpgradeRounds.RoundDelivers` | components/mupgrade/mupgrade_root.c:395-486 | round coverage across both files: a device whose answer the root has accepted ends with the complete image if the packets addressed to it reach it, in any order and among anything else that reaches it |
| `UpgradeRounds.TwoRounds` | components/mupgrade/mupgrade_root.c:395-490 | two rounds in which whoever has not reported completion already answers one of up to three requests and everything sent arrives where it is addressed to, with any reports in between that stop nobody: MDF_OK, all targets successed and all of them with the image |
| `UpgradeRounds.EverybodyAnswers` | components/mupgrade/mupgrade_root.c:193-298 | after a status request that everybody asked answers in one of up to three attempts, whatever was queued before it, whoever is still unfinished is requested, with its own answer accepted |
| `UpgradeProgress.StepProgress` | components/mupgrade/mupgrade_node.c:178-192 | in every step of the system without a stop or a restart, the number of pairs of an unfinished device and a packet it lacks falls by exactly one for each new packet that an unfinished device accepts (and by all of the root's own at its first answer), and by nothing else |
| `UpgradeProgress.RunProgress` | components/mupgrade/mupgrade_root.c:395-486 | over such runs the number of pairs never rises, and it is zero iff all unfinished devices are complete |
| `UpgradeProgress.SuccessedAreComplete` | components/mupgrade/mupgrade_root.c:198-208 | in such runs devices on the successed list have the complete image and keep it |
| `UpgradeSystem.TakeInv` | components/mupgrade/mupgrade_root.c:174-514 | every step of the system (device, network, root) keeps the system invariant |
| `UpgradeSystem.RunInv` | components/mupgrade/mupgrade_root.c:333-514 | the system invariant holds in every reachable state |
| `UpgradeInvariant.CompleteIffAllBits` | components/mupgrade/mupgrade_node.c:215 | with the count equal to the total size of the packets whose bit is set: it never exceeds total_size, and equals it iff every bit below packet_num is set |
| `UpgradeInvariant.AllSlices` | components/mupgrade/mupgrade_node.c:184-192 | the image is in the partition iff the slice of each packet is |
| `UpgradeInvariant.ProgramPacket` | components/mupgrade/mupgrade_node.c:184-188 | on NOR flash, where a write only clears bits, writing a packet again (also over an interrupted write) yields its slice and spoils no other |
| `UpgradeInvariant.StatusKeepsInv` | components/mupgrade/mupgrade_node.c:23-133 | mupgrade_status keeps the device invariant and its report is truthful: complete only with the whole image in the partition |
| `UpgradeInvariant.DataKeepsInv` | components/mupgrade/mupgrade_node.c:135-248 | mupgrade_write keeps the device invariant for every packet of the image, duplicates included, and whatever esp_ota_set_boot_partition returns; its reports are truthful |
| `UpgradeInvariant.StopKeepsInv` | components/mupgrade/mupgrade_node.c:288-315 | mupgrade_stop keeps the device invariant |
| `UpgradeInvariant.PowerCycleKeepsInv` | components/mupgrade/mupgrade_node.c:28-41 | coming up from an old snapshot keeps the device invariant: everything the restored bitmap lists is still on flash |
| `UpgradeInvariant.RestoreIsConsistentIff` | components/mupgrade/mupgrade_node.c:204-208 | a snapshot of a consistent status restores to a consistent status iff no packet from 3968 on had been received |
| `UpgradeRuns.ApplyKeepsInv` | components/mupgrade/mupgrade_node.c:23-315 | each thing that can happen to a device, power failing during a flash write included, keeps the invariant and produces only truthful reports |
| `UpgradeRuns.RunKeepsInv` | components/mupgrade/mupgrade_node.c:23-315 | the device invariant over whole runs |
| `UpgradeRuns.SteadyKeepsPackets` | components/mupgrade/mupgrade_node.c:178-192 | short of a stop or a reboot the set of packets held grows exactly by the packets delivered |
| `UpgradeRuns.RoundCompletes` | components/mupgrade/mupgrade_node.c:178-215 | a device to which every packet missing from an older report is delivered, in any order and with anything in between, ends complete |
| `UpgradeRuns.ProgressMeasure` | components/mupgrade/mupgrade_node.c:178-192 | the number of missing packets falls by exactly one with each new packet, never rises, and is zero iff the device is complete |
| `UpgradeResume.ResumeSoundIff` | components/mupgrade/mupgrade_node.c:204-208 | in all runs, reboots included, written_size is the total size of the packets whose bit is set, if and only if the image has at most 3968 packets or the report interval is at least 100 percent |
| `UpgradeResume.DriftRun` | components/mupgrade/mupgrade_node.c:196-213 | otherwise a run after which count and bitmap disagree |
| `UpgradeDrift.OnlyCompleteImagesBootIff` | components/mupgrade/mupgrade_node.c:196-245 | the iff of `SystemSafeIff` for one device: every size and interval, all images of that size, all runs |
| `UpgradeDrift.IncompleteImageBoots` | components/mupgrade/mupgrade_node.c:196-245 | wherever the count can be made up: a run in which packet 3968 is counted m times too often, at one report level after the other, and after which a device that has never received packet 0 reports completion and selects its partition for booting, having selected nothing before |
| `UpgradeLimits.CompleteCount` | components/mupgrade/mupgrade_node.c:196-215 | where it cannot, packet 3968 has been counted just once when the count is complete, and every other packet is held |
| `UpgradeLimits.LevelsAfter` | components/mupgrade/mupgrade_node.c:196-213 | a packet with the snapshot that it may cause keeps the books: how often packet 3968 has been counted by the level that has been reached |
| `UpgradeLimits.ApplySafe` | components/mupgrade/mupgrade_node.c:23-315 | where the count cannot be made up, everything that can happen to a device, restarts included, leaves it such that what it selects or reports as complete is the image |
| `UpgradeLimits.RunSafe` | components/mupgrade/mupgrade_node.c:23-315 | the same over whole runs |
| `UpgradeLimits.FewMissing` | components/mupgrade/mupgrade_node.c:196-208 | any number of recounts that makes up for at most 37 packets works, whatever the interval |
| `UpgradeLimits.FullDrifts` | components/mupgrade/mupgrade_node.c:196-208 | in particular a single recount, if packet 3968 is a full one |
| `UpgradeLimits.OddSizesAreSafe` | components/mupgrade/mupgrade_node.c:196-208 | if packet 3968 is the last one with an odd number of at least 45 bytes, the count can never be made up |
| `UpgradeDrift.StuckDevice` | components/mupgrade/mupgrade_node.c:196-215 | for every image with a packet behind packet 3968 whose last packet is not a full one: a run after which a device holds every packet but has counted too much |
| `UpgradeDrift.StuckStays` | components/mupgrade/mupgrade_node.c:178-215 | no request and no packet gets a device out of there; all its reports are incomplete and show no gap |
| `UpgradeDrift.Resume` | components/mupgrade/mupgrade_node.c:28-41 | after the reboot packet 3968 is no longer in the bitmap but still in the count, however often it was counted |
| `UpgradeOutcome.CompletionReported` | components/mupgrade/mupgrade_node.c:178-245 | mupgrade_write sends its completion report and selects the new partition exactly with the packet that was the last one missing; then the image is complete and the snapshot gone |
| `UpgradeOutcome.CompletionRefused` | components/mupgrade/mupgrade_node.c:222-233 | if the boot partition cannot be set, the last missing packet returns an error, sends nothing, selects nothing, stops the device and leaves no snapshot; every other packet is handled as usual |
| `UpgradeOutcome.ReportsSelected` | components/mupgrade/mupgrade_node.c:215-245 | whatever happens to a device, restarts of any kind included, it reports completion only with the new partition selected for booting |
| `UpgradeOutcome.PacketFate` | components/mupgrade/mupgrade_node.c:135-233 | for any device and any packet whatever: the exact cause of each return value, and nothing sent or changed unless the packet is accepted or the device has stopped |
| `UpgradeOutcome.RequestMeaning` | components/mupgrade/mupgrade_node.c:23-133 | for any device other than the root and any request: a different name or size starts over, with an erased partition, nothing held or counted in RAM and snapshot, and 0 reported; the same name and size change nothing but the error code, and the report says how far the device is |
| `UpgradeOutcome.RootRequestMeaning` | components/mupgrade/mupgrade_node.c:44-71 | for the root: a request it does not know makes it complete and selected, one it knows changes nothing |
| `UpgradeOutcome.StopIsReported` | components/mupgrade/mupgrade_node.c:158-170 | a stop answers with exactly one report that says so, clears count, bitmap and snapshot and revokes the selection of a finished upgrade; each packet that reaches a stopped device is answered by the same report |
| `UpgradeOutcome.ResetMeaning` | components/mupgrade/mupgrade_node.c:20-41 | a reset leaves nothing of RAM and exchanges the partitions exactly if the new one was selected |
| `UpgradeOutcome.StopTakesEffectIff` | components/mupgrade/mupgrade_node.c:288-315 | mupgrade_stop stops the device iff the config is in RAM; after a restart and before the first message it changes nothing |
| `UpgradeOutcome.StopIsFinal` | components/mupgrade/mupgrade_node.c:288-315 | where it takes effect, also on a finished upgrade and whatever arrives, the flash stays as it is, every report says stopped, and a restart boots the partition that is running now |
| `UpgradeOutcome.HaltedStays` | components/mupgrade/mupgrade_node.c:158-170 | a stopped device writes nothing and reports that it has stopped, whatever it receives |
| `UpgradeOutcome.RootAnswersComplete` | components/mupgrade/mupgrade_node.c:55-71 | the root answers as complete or stopped, never with packets missing |
| `UpgradeOutcome.PacketsReachRequested` | components/mupgrade/mupgrade_root.c:462-481 | each packet of a round is addressed to every device (other than the root) that is still requested at its end, whether the targets were a list, MWIFI_ADDR_ANY or MWIFI_ADDR_BROADCAST |
| `UpgradeOutcome.PacketsReachNobodyElse` | components/mupgrade/mupgrade_root.c:462-481 | no packet of a round reaches anyone it is not meant for: with a list, or from two successes on, nobody who is not requested; otherwise every device but the root, and the root as well with MWIFI_ADDR_ANY and no success |
| `UpgradeOutcome.TurnReachesNobodyElse` | components/mupgrade/mupgrade_root.c:424-481 | with a list each packet reaches exactly those still requested once the queue has been emptied |
| `UpgradeOutcome.LastStatusRequest` | components/mupgrade/mupgrade_root.c:174-317 | if nobody stops and each device still unfinished when the queue is empty answers one of up to three requests with a completion report, the status request returns MDF_OK with all of them successed |
| `UpgradeDevice.Device.constructor` | components/mupgrade/mupgrade_node.c:20-21 | initial state of the globals |
| `UpgradeDevice.Device.LoadConfig` | components/mupgrade/mupgrade_node.c:31-41 | the saved bytes are loaded into a zeroed config, or nothing if nothing was saved |
| `UpgradeDevice.Device.SaveConfig` | components/mupgrade/mupgrade_node.c:103-104 | a snapshot holds all of the status but only the first 496 bytes of the bitmap |
| `UpgradeDevice.Device.HandleStatus` | components/mupgrade/mupgrade_node.c:23-133 | mupgrade_status takes the device to the state and the report of UpgradeNode.HandleStatus, in place; `RequestMeaning` and `RootRequestMeaning` say what these are |
| `UpgradeDevice.Device.BeginUpgrade` | components/mupgrade/mupgrade_node.c:50-107 | another firmware starts from scratch: the root counts as complete at once, a node erases its partition and saves |
| `UpgradeDevice.Device.TakeSnapshot` | components/mupgrade/mupgrade_node.c:196-213 | a snapshot when the percentage is hit exactly, otherwise at most the next percentage moves |
| `UpgradeDevice.Device.StorePacket` | components/mupgrade/mupgrade_node.c:183-192 | flash slice, one bit and the count change, and nothing else |
| `UpgradeDevice.Device.AcceptPacket` | components/mupgrade/mupgrade_node.c:183-245 | a packet that is not a duplicate: stored, then snapshot, then completion |
| `UpgradeDevice.Device.Write` | components/mupgrade/mupgrade_node.c:135-248 | mupgrade_write with all its returns: not initialised, stopped, out of range, duplicate, flash error, accepted |
| `UpgradeDevice.Device.FinishUpgrade` | components/mupgrade/mupgrade_node.c:215-245 | completion, or the stopped state when the boot partition cannot be set; `CompletionReported` and `CompletionRefused` say what these are |
| `UpgradeDevice.Device.Stop` | components/mupgrade/mupgrade_node.c:288-315 | mupgrade_stop |
| `UpgradeDevice.Device.Reset` | components/mupgrade/mupgrade_node.c:20-41 | a reset keeps flash and NVS, loses the rest and boots the selected partition |
| `UpgradeCoverage.RequestStatusMeaning` | components/mupgrade/mupgrade_root.c:174-317 | the requested list is that of the accepted answers; progress_array is the intersection of their bitmaps; everybody unfinished is pending or requested; the status is MDF_OK iff nobody is unfinished and nobody requested, FIRMWARE_INCOMPLETE iff somebody is requested, and SEND_PACKET_LOSS iff somebody is unfinished and nobody requested |
| `UpgradeCoverage.RoundSendsUnion` | components/mupgrade/mupgrade_root.c:410-485 | unless it is cut short, a round sends exactly the packets that some requested device reported as missing |
| `UpgradeCoverage.RoundSendsUnionAt` | components/mupgrade/mupgrade_root.c:410-485 | the same packet by packet, through progress_array |
| `UpgradeCoverage.PacketsSent` | components/mupgrade/mupgrade_root.c:410-485 | the packets sent are those with a clear bit, each once and in increasing order; a round that is cut short sends a prefix of them |
| `UpgradeCoverage.ClearFromIncreasing` | components/mupgrade/mupgrade_root.c:410-411 | they are in increasing order |
| `UpgradeCoverage.ReportShowsGap` | components/mupgrade/mupgrade_root.c:307-313 | an incomplete report clears a bit of progress_array, so that the scan cannot find all ones |
| `UpgradeCoverage.SendForgetsNobody` | components/mupgrade/mupgrade_root.c:410-485 | while packets are sent, whatever is read in between, every unfinished device stays pending or requested |
| `UpgradeCoverage.RoundForgetsNobody` | components/mupgrade/mupgrade_root.c:395-486 | the same over a whole round |
| `UpgradeEnding.ExitIff` | components/mupgrade/mupgrade_root.c:424-460 | the queue is read to its end unless nobody is left unfinished, and then the packet loop ends |
| `UpgradeEnding.EmptyFirmware` | components/mupgrade/mupgrade_root.c:427-446 | what the completion test while sending does when it is true, for a firmware of size 0: the sender leaves the unfinished devices, but is successed only if it was requested |
| `UpgradeEnding.PacketsUntilStop` | components/mupgrade/mupgrade_root.c:395-421 | when mupgrade_firmware_stop takes effect before packet k, exactly the clear packets below k are sent |
| `UpgradeEnding.UnreadableEnds` | components/mupgrade/mupgrade_root.c:414-418 | a packet that cannot be read ends everything, with no packet sent from it on |
| `UpgradeEnding.RoundIsLast` | components/mupgrade/mupgrade_root.c:395-490 | no round follows one after which nobody is left, in which a packet cannot be read, or which has been stopped |
| `UpgradeEnding.RoundGoesOn` | components/mupgrade/mupgrade_root.c:395-490 | any other round is followed by the next one |
| `UpgradeEnding.SendResultMeaning` | components/mupgrade/mupgrade_root.c:395-514 | MDF_OK is returned iff every target has got off the list, and then each is successed or has reported a stop |
| `UpgradeMessages.DrainStepMeaning` | components/mupgrade/mupgrade_root.c:193-217 | one message before the request: exactly what becomes of its sender, and nothing of anyone else |
| `UpgradeMessages.ResponseStepMeaning` | components/mupgrade/mupgrade_root.c:230-296 | one answer: a stop takes its sender off both lists, the first answer of anyone else makes it successed or requested, and nobody else is touched |
| `UpgradeMessages.MidStepMeaning` | components/mupgrade/mupgrade_root.c:424-455 | one message between packets: a stop takes its sender off both lists, anything else changes nothing |
| `UpgradeMessages.DrainStops` | components/mupgrade/mupgrade_root.c:213-217 | nothing more is read before the request once nobody is unfinished |
| `UpgradeMessages.CollectStops` | components/mupgrade/mupgrade_root.c:230-232 | nothing more is read once all have answered |
| `UpgradeMessages.AttemptsStop` | components/mupgrade/mupgrade_root.c:226-232 | the request is repeated only as long as somebody has not answered |
| `UpgradeAccounting.RequestAccounts` | components/mupgrade/mupgrade_root.c:174-317 | over a whole status request nobody is lost or listed twice; an address becomes successed or disappears only because of its own complete or stop report |
| `UpgradeAccounting.SendAccounts` | components/mupgrade/mupgrade_root.c:395-490 | the same over a whole mupgrade_firmware_send |
| `UpgradeAccounting.DrainStepAccounts` | components/mupgrade/mupgrade_root.c:193-217 | the same for one message before the request |
| `UpgradeAccounting.ResponseStepAccounts` | components/mupgrade/mupgrade_root.c:230-296 | the same for one answer |
| `UpgradeAccounting.MidStepAccounts` | components/mupgrade/mupgrade_root.c:424-455 | the same for one message found while sending; the completion test there never makes anyone successed unless total_size is 0 |
| `UpgradeSender.Sender.constructor` | components/mupgrade/mupgrade_root.c:364-386 | the targets start as unfinished |
| `UpgradeSender.Sender.Promote` | components/mupgrade/mupgrade_root.c:198-208 | from unfinished to successed |
| `UpgradeSender.Sender.DrainQueue` | components/mupgrade/mupgrade_root.c:193-217 | the loop before the request, ending early iff nobody is unfinished |
| `UpgradeSender.Sender.HandleResponse` | components/mupgrade/mupgrade_root.c:243-295 | one answer: stop, unknown sender, nothing written, complete, or a bitmap ANDed in place |
| `UpgradeSender.Sender.CollectResponses` | components/mupgrade/mupgrade_root.c:230-297 | the answers to one request |
| `UpgradeSender.Sender.RequestStatus` | components/mupgrade/mupgrade_root.c:174-317 | mupgrade_request_status: state and result are those of UpgradeRoot.RequestStatus |
| `UpgradeSender.Sender.DrainWhileSending` | components/mupgrade/mupgrade_root.c:424-455 | the loop over the queue before a packet, with the test of line 427 as it is |
| `UpgradeSender.Sender.SendPacket` | components/mupgrade/mupgrade_root.c:411-484 | one turn of the packet loop, with its choice of destination and its exits, the one after a failed read of the partition included; `PacketsReachRequested` and `PacketsReachNobodyElse` say whom the destination includes |
| `UpgradeSender.Sender.SendPackets` | components/mupgrade/mupgrade_root.c:410-485 | the packet loop |
| `UpgradeSender.Sender.SendRound` | components/mupgrade/mupgrade_root.c:395-486 | one round |
| `UpgradeSender.Sender.FirmwareSend` | components/mupgrade/mupgrade_root.c:395-490 | mupgrade_firmware_send from its rounds on; it returns MDF_OK iff unfinished is empty |
| `Flash.WriteFlash` | components/mupgrade/mupgrade_node.c:184-188 | esp_partition_write ANDs the data into the flash and changes nothing else |
| `Bitmap.MembersWithBit` | components/mupgrade/include/mupgrade.h:62 | SET adds exactly one packet number to the set |
| `Bitmap.GetWithBit` | components/mupgrade/include/mupgrade.h:61-62 | GET after SET |
| `Bitmap.MaskValues` | components/mupgrade/include/mupgrade.h:61-62 | bit 0 is the lowest of its byte |
| `Bitmap.MembersAnd` | components/mupgrade/mupgrade_root.c:291-293 | byte-wise AND is intersection |
| `Bitmap.MembersZeros` | components/mupgrade/mupgrade_node.c:50-53 | a cleared bitmap is the empty set |
| `Bitmap.FullIffAllOnes` | components/mupgrade/mupgrade_root.c:307-313 | all bytes are 0xFF iff the set is full |
| `Bitmap.MembersDetermine` | components/mupgrade/include/mupgrade.h:61 | the set determines the bytes |
| `Bitmap.SetBit` | components/mupgrade/include/mupgrade.h:62 | in place: the set gains exactly one number |
| `Bitmap.Fill` | components/mupgrade/mupgrade_root.c:223 | memset of a bitmap |
| `Bitmap.AndInto` | components/mupgrade/mupgrade_root.c:291-293 | in place: the set becomes the intersection |
| `Bitmap.IsFull` | components/mupgrade/mupgrade_root.c:307-313 | the scan decides whether the set is full |
| `Addresses.RemoveFirstContents` | components/mupgrade/mupgrade_root.c:159-172 | removal takes out one occurrence as a multiset and nothing if there is none |
| `Addresses.NoDupRemove` | components/mupgrade/mupgrade_root.c:159-172 | a list without duplicates stays one, without the address and with all others |
| `Addresses.CloseGap` | components/mupgrade/mupgrade_root.c:163-165 | the entries behind the gap move down by one place |
| `Addresses.AddrsRemove` | components/mwifi/mwifi.c:641-654 | in place: the first occurrence is removed, the order kept, the count lowered iff it was found, and nothing behind the list touched |
| `KmpSearch.KmpNext` | components/mupgrade/mupgrade_check.c:154-169 | next[i] is the length of the longest proper border of target[0..i], for every i; at most 2 * target_size turns of the loops |
| `KmpSearch.Shorten` | components/mupgrade/mupgrade_check.c:159-161 | falling back along the table yields the longest match that the next byte extends, or none |
| `KmpSearch.KmpFind` | components/mupgrade/mupgrade_check.c:171-189 | MDF_OK iff the target occurs with its last byte at an index of at most src_size - target_size; at most 2 * src_size turns |
| `KmpSearch.SearchExactIff` | components/mupgrade/mupgrade_check.c:174 | for sources of n bytes the search finds every occurrence iff the target is a single byte or does not fit |
| `KmpSearch.MissedOccurrence` | components/mupgrade/mupgrade_check.c:174 | otherwise a source whose only occurrence is missed |
| `KmpSearch.EarlyStartsAreFound` | components/mupgrade/mupgrade_check.c:174 | occurrences that start at most src_size - 2 * target_size + 1 bytes in are found |
| `EspnowDelivery.ReadsAreWrittenMessages` | components/mespnow/mespnow.c:97-377 | in any run of one sender and one reader that take turns frame by frame, whatever is lost, repeated or acknowledged and whenever the reader gives up, the messages read are exactly messages written, at strictly increasing places among them |
| `EspnowDelivery.TakeMeaning` | components/mespnow/mespnow.c:320-373 | whatever frame the reader takes, it returns nothing but a message all of whose frames were there, and passes over the messages before it |
| `EspnowDelivery.WaitIsEvent` | components/mespnow/mespnow.c:320-373 | each wait of mespnow_read, with whatever the callback queues before it ends, is a timeout or a frame taken in these runs |
| `EspnowLossless.EverythingArrives` | components/mespnow/mespnow.c:244-377 | while every write succeeds, each frame finds room and the reader is patient, with any interleaving and messages longer than the queue: what has been read is the beginning of what was written, up to the messages still queued; when these are none, it is everything |
| `EspnowLossless.EverythingCanBeRead` | components/mespnow/mespnow.c:320-373 | once the writer is done, calls and frames taken are all it needs to read everything |
| `EspnowLimits.RoundTripIff` | components/mespnow/mespnow.c:244-281 | over a perfect channel a message comes back iff it has at most 256 frames |
| `EspnowLimits.SafeIff` | components/mespnow/mespnow.c:118-145 | if acknowledged frames may go unqueued, because copies are damaged or because the queue is full, all runs are safe iff messages have a single frame, whatever the capacity; otherwise they are safe for all messages of up to 256 frames |
| `EspnowLimits.OverflowMixes` | components/mespnow/mespnow.c:142-145 | for every capacity a run in which the queue runs full and a reader is left with half of one message before half of the next |
| `EspnowLimits.DamageMixes` | components/mespnow/mespnow.c:118-128 | the same with two damaged copies and room for every frame |
| `Espnow.FrameAtMostOnce` | components/mespnow/mespnow.c:118-145 | whatever arrives, a frame with a new magic is queued once or not at all |
| `Espnow.FrameOnce` | components/mespnow/mespnow.c:118-135 | without damaged copies and with room it is queued if the write goes on |
| `Espnow.RetriesEnd` | components/mespnow/mespnow.c:255-277 | the retries of a frame end with the first attempt that fails at once or is acknowledged, and the frame counts as sent in the latter case only |
| `Espnow.RetriesRunOut` | components/mespnow/mespnow.c:255-277 | without an acknowledgement all attempts take place and the frame counts as not sent |
| `Espnow.OnlyNumberAndPayload` | components/mespnow/mespnow.c:347-372 | in the second loop of a read only number and payload of a frame matter |
| `Espnow.HeaderFits` | components/mespnow/mespnow.c:236-250 | each field of a frame fits its width |
| `Espnow.DuplicatesDropped` | components/mespnow/mespnow.c:118-124 | later copies of the frame last seen change nothing |
| `Espnow.DamagedCopyBlocksRetries` | components/mespnow/mespnow.c:118-132 | a copy with a wrong checksum still marks the magic as seen, so that every intact retry is dropped |
| `Espnow.MessageDelivered` | components/mespnow/mespnow.c:244-281 | a write puts the first k frames of the message into the queue, each once and in order, and all of them if it returns MDF_OK |
| `EspnowDevice.Receiver.constructor` | components/mespnow/mespnow.c:73-79 | empty queues |
| `EspnowDevice.Receiver.RecvCb` | components/mespnow/mespnow.c:97-161 | the callback: foreign frames, duplicates, damaged frames and full queues; only its own pipe changes |
| `EspnowDevice.Receiver.Read` | components/mespnow/mespnow.c:299-377 | mespnow_read in place, with the callback at work while it waits; other pipes stay as they are |
| `EspnowDevice.Receiver.Collect` | components/mespnow/mespnow.c:349-376 | its second loop |
| `EspnowDevice.Receiver.Await` | components/mespnow/mespnow.c:354-357 | a wait on the queue: fails iff nothing is queued when it ends |
| `EspnowDevice.TransmitFrame` | components/mespnow/mespnow.c:253-275 | the retries of one frame |
| `EspnowDevice.Write` | components/mespnow/mespnow.c:211-297 | mespnow_write with its argument check; other pipes stay as they are |
| `MwifiFragments.EverythingIsRead` | components/mwifi/mwifi.c:967-1059 | any list of messages of 1 to 8191 bytes is read back in order, also if last fragments arrive several times and by a reader that joins inside an earlier message |
| `MwifiFragments.RootReadsEverything` | components/mwifi/mwifi.c:1330-1374 | the same for the root, which has no filter for repeated packets |
| `MwifiFragments.RepeatedFragmentIff` | components/mwifi/mwifi.c:1032-1053 | a fragment received twice in a row costs the message unless it is the last one: the duplicate filter comes after the sequence check |
| `MwifiFragments.RoundTrip` | components/mwifi/mwifi.c:659-714 | one message, read by a node or by the root, with its length decoded exactly and the packets behind it left alone |
| `MwifiFragments.RoundTripIff` | components/mwifi/mwifi.c:665-680 | a message comes back iff it has at most 8191 bytes |
| `MwifiFragments.ReadsPrefix` | components/mwifi/mwifi.c:1002-1059 | whatever its length, what is read of a message is a prefix of it, a proper one if it is too long |
| `MwifiFragments.SizeFits` | components/mwifi/mwifi.c:665-670 | the 12+1 bits of the length hold it and packet_seq stays below 8 |
| `MwifiFragments.SubcontractSendsFragments` | components/mwifi/mwifi.c:659-714 | the packets sent are the fragments in order up to the first failure; all of them iff MDF_OK |
| `MwifiFragments.GetsOutIff` | components/mwifi/mwifi.c:690-708 | the retries of one fragment succeed iff the first answer other than out-of-memory is success |
| `MwifiFragments.HeaderFits` | components/mwifi/mwifi.c:659-689 | each field of a fragment fits its width |
| `MwifiFragments.ResyncLaw` | components/mwifi/mwifi.c:1032-1044 | after a loss inside a message, whatever follows: the next message is returned if it has a single fragment and skipped as a whole otherwise |
| `MwifiFragments.ResyncRecoversIff` | components/mwifi/mwifi.c:1032-1044 | after a loss inside a message the next one is returned iff it has a single fragment |
| `MwifiFragments.RootResyncLaw` | components/mwifi/mwifi.c:1357-1373 | after a loss the root skips the next message as a whole if it has several fragments, and otherwise keeps it and glues whatever follows to it |
| `MwifiFragments.RootResyncMixes` | components/mwifi/mwifi.c:1357-1373 | in particular two single-fragment messages come back as one |
| `MwifiMulticast.AddrsRoundTrip` | components/mwifi/mwifi.c:1078-1081 | the addresses in front of the payload decode to the list and the payload |
| `MwifiDelivery.ExtractSplits` | components/mwifi/mwifi.c:772-779 | the list is split into what is in the subnet and what is not, without duplicates or losses |
| `MwifiDelivery.TurnExtracts` | components/mwifi/mwifi.c:752-779 | one turn takes out of the list exactly what is behind the child, as often as it is there |
| `MwifiDelivery.TurnMeaning` | components/mwifi/mwifi.c:752-807 | the turn of one child: what is left, what the header says and what is sent, for lists of any length |
| `MwifiDelivery.SpreadExact` | components/mwifi/mwifi.c:742-808 | through the whole tree: every listed address below the children gets the unchanged payload once, nobody else anything |
| `MwifiDelivery.MulticastExact` | components/mwifi/mwifi.c:719-839 | multicast exactly once for any tree and any list without duplicates; the addresses sent to directly are those outside the tree |
| `MwifiDelivery.MulticastIff` | components/mwifi/mwifi.c:774-807 | every listed node of the tree gets the payload iff behind each child of the root there are at most 1023 of them and the message to it, addresses included, has at most 8191 bytes |
| `MwifiDelivery.LeftOut` | components/mwifi/mwifi.c:774-807 | otherwise a listed node that gets nothing and is not sent to directly either |
| `MwifiDelivery.TurnsWithFailure` | components/mwifi/mwifi.c:803-835 | when a message to a child cannot be sent, the loop ends and the rest of the list is sent to directly: only that child and the nodes below it miss the payload |
| `MwifiDelivery.FloodExact` | components/mwifi/mwifi.c:731-835 | flooding reaches every node below once; with MWIFI_ADDR_ANY the root itself as well, and then, directly, whoever is listed behind it, even if once more |
| `MwifiDelivery.FloodsIff` | components/mwifi/mwifi.c:726-733 | a message is flooded iff it is addressed to MWIFI_ADDR_ANY or MWIFI_ADDR_BROADCAST or has been so before |
| `MwifiDelivery.TenBitsLoseEverything` | components/mwifi/mwifi.c:774-788 | with a multiple of 1024 destinations behind a child that is not one itself, the 10-bit count is 0 and the child is sent nothing |
| `MwifiDelivery.SpreadFollowsTurns` | components/mwifi/mwifi.c:742-808 | the deliveries are what the children do with the messages that mwifi_transmit_write sends |
| `MwifiDevice.SubcontractWrite` | components/mwifi/mwifi.c:659-714 | the send loop: a prefix of the fragments, all of them iff MDF_OK |
| `MwifiDevice.SendFragment` | components/mwifi/mwifi.c:690-708 | the retries of one fragment: it gets out iff the first answer other than out-of-memory is success |
| `MwifiDevice.Reader.Read` | components/mwifi/mwifi.c:1002-1059 | the loop of __mwifi_read with its duplicate filter and resynchronisation |
| `MwifiDevice.Reader.RootRead` | components/mwifi/mwifi.c:1330-1374 | the loop of __mwifi_root_read |
| `MwifiDevice.ExtractSubnet` | components/mwifi/mwifi.c:772-779 | the inner loop on the address buffer, in place |
| `MwifiDevice.TransmitToChild` | components/mwifi/mwifi.c:742-808 | one turn of the loop over the children |
| `MwifiDevice.TransmitWrite` | components/mwifi/mwifi.c:719-839 | all messages to children up to the first that cannot be sent, and all direct targets |
| `MwifiDevice.DirectTargets` | components/mwifi/mwifi.c:816-829 | the targets of the last loop |
| `FlashLog.WriteMeaning` | components/mdebug/mdebug_flash.c:120-176 | a write that fits appends timestamp and chunk to the FIFO; if it rotates, exactly the unread rest of the older segment is dropped |
| `FlashLog.FittingWriteAppends` | components/mdebug/mdebug_flash.c:120-176 | while chunk and timestamp fit behind what is there, a write appends them, drops nothing and stays in its segment |
| `FlashLog.OverflowingWriteDropsOlder` | components/mdebug/mdebug_flash.c:124-139 | if the chunk does not fit there, a write changes segments and drops exactly the unread rest of the older one |
| `FlashLog.ChangesSegmentIff` | components/mdebug/mdebug_flash.c:124-139 | successful or not, a write changes segments iff size and chunk together exceed the segment |
| `FlashLog.WriteSucceedsIff` | components/mdebug/mdebug_flash.c:143-165 | it succeeds iff timestamp and chunk end within the partition |
| `FlashLog.StampAfterWrite` | components/mdebug/mdebug_flash.c:143-176 | the next write begins with a timestamp iff this one succeeds and ends with a newline |
| `FlashLog.WriteKeepsInvIff` | components/mdebug/mdebug_flash.c:124-166 | a write succeeds and keeps sizes within segments and the rest erased iff chunk and timestamp together fit the chosen segment |
| `FlashLog.RefusedMeaning` | components/mdebug/mdebug_flash.c:143-165 | a write that the flash driver refuses may rotate and add its timestamp, if that fits, but changes nothing else; it keeps the log intact exactly if the timestamp fits or is refused too |
| `FlashLog.SpillDamages` | components/mdebug/mdebug_flash.c:124-160 | a write into the first segment that does not fit is ANDed into the second one |
| `FlashLog.ReadMeaning` | components/mdebug/mdebug_flash.c:181-223 | a read returns the oldest unread bytes, exactly min(requested, unread) of them, and leaves the rest |
| `FlashLog.StepConserves` | components/mdebug/mdebug_flash.c:101-223 | each operation: what has left the log, followed by what is in it, is what was written |
| `FlashLog.RunConserves` | components/mdebug/mdebug_flash.c:101-223 | the same over any run; the reads returned the bytes that left by reading, in order |
| `FlashLog.NothingLost` | components/mdebug/mdebug_flash.c:101-223 | without loss at a rotation, reads and rest together are what was written |
| `FlashLog.FittingRunLosesNothing` | components/mdebug/mdebug_flash.c:101-223 | over any run whose chunks and timestamps together fit behind what is there, no segment changes and reads and rest together are what was written |
| `FlashLogDevice.Device.constructor` | components/mdebug/mdebug_flash.c:41-86 | the log on an empty NVS |
| `FlashLogDevice.Device.RotateFiles` | components/mdebug/mdebug_flash.c:124-139 | the next segment is cleared, erased and selected |
| `FlashLogDevice.Device.WriteTimestamp` | components/mdebug/mdebug_flash.c:143-157 | the timestamp at the start of a line; the flag is cleared even if the write is refused |
| `FlashLogDevice.Device.TryPut` | components/mdebug/mdebug_flash.c:154-166 | a write with the driver's check, and the new size of the file |
| `FlashLogDevice.Device.AppendBytes` | components/mdebug/mdebug_flash.c:141-176 | timestamp at the start of a line, then the chunk, either of which may be refused |
| `FlashLogDevice.Device.Write` | components/mdebug/mdebug_flash.c:101-179 | mdebug_flash_write with its three results: the new state, and the invariant if chunk and timestamp fit |
| `FlashLogDevice.Device.ReadFile` | components/mdebug/mdebug_flash.c:200-219 | one turn of the read loop |
| `FlashLogDevice.Device.Read` | components/mdebug/mdebug_flash.c:181-223 | mdebug_flash_read |
| `FlashLogDevice.Device.Size` | components/mdebug/mdebug_flash.c:241-256 | mdebug_flash_size is the length of the FIFO |
| `HttpChunks.OneCompleteResponse` | components/mlink/mlink_httpd.c:132-187 | for n > 1 destinations and any interleaving of answers and timeouts, with sends that work and sends that fail: the slot is freed by the n-th answer, a timeout or a failing send, whichever is first; the socket has then got one response that the decoder turns into the answers heard, in order, or the error response alone, or, if the last send failed or could not be made, something that no decoder takes for a whole response |
| `HttpChunks.SingleAnswer` | components/mlink/mlink_httpd.c:201-208 | for one destination the first event decides: the answer as it is, or the error response, or nothing if that cannot be sent |
| `HttpChunks.NoDestinations` | components/mlink/mlink_httpd.c:855-860 | with a count of 0 an answer does not free the slot and the timeout puts the error response behind it |
| `HttpChunks.BadRequestLength` | components/mlink/mlink_httpd.c:168-171 | the error response announces the length that its body has |
| `HttpChunks.DecodesToChunks` | components/mlink/mlink_httpd.c:819-868 | a decoder for section 7.1 of RFC 9112 inverts header, chunks and last chunk for any list of non-empty answers |
| `HttpChunks.DecodeOneChunk` | components/mlink/mlink_httpd.c:833-853 | one chunk decodes to its data, followed by whatever follows |
| `HttpChunks.ParsePrinted` | components/mlink/mlink_httpd.c:833-834 | the %x size line is read back |
| `HttpChunks.HexDigits` | components/mlink/mlink_httpd.c:833-834 | digits in lower case, without a leading 0 |
| `HttpChunks.WriteWorks` | components/mlink/mlink_httpd.c:818-873 | a write puts one chunk on the socket, the header before the first and the last chunk after the last |
| `HttpChunks.WriteIff` | components/mlink/mlink_httpd.c:818-873 | for a slot in use: the write succeeds iff every send that is reached works; otherwise the slot is free and the socket has got a proper prefix of what a working write puts on it |
| `HttpChunks.CutIsNoticed` | components/mlink/mlink_httpd.c:132-146 | what a failing send leaves on the socket never decodes as a whole response |
| `HttpChunks.WriteToFree` | components/mlink/mlink_httpd.c:189-199 | a free slot stays as it is |
| `HttpServer.Server.constructor` | components/mlink/mlink_httpd.c:51 | all slots free |
| `HttpServer.Server.Add` | components/mlink/mlink_httpd.c:201-221 | the first free slot is taken, also if another one has the same socket; fails iff there is none |
| `HttpServer.Server.Find` | components/mlink/mlink_httpd.c:189-199 | the first used slot with that socket, if there is one |
| `HttpServer.Server.WriteConn` | components/mlink/mlink_httpd.c:818-873 | the sends of one write, each of which may fail; `WriteIff` says what that means |
| `HttpServer.Server.Write` | components/mlink/mlink_httpd.c:782-876 | only the first slot of the socket and what is on this socket change; unknown sockets change nothing |
| `HttpServer.Server.Expire` | components/mlink/mlink_httpd.c:132-187 | the timeout callback of one slot; if its send fails, the first slot of that socket is freed as well |

## Left out

- UpgradeRounds.RoundDelivers: speaks of a device that neither stops nor reboots between its answer and the end of the round
- UpgradeDevice.Device.Write: not for sequence numbers beyond the bitmap that do not exceed the total size, where the code reads past the bitmap, nor for an empty firmware, by whose size it divides
- MwifiFragments.EverythingIsRead: is about channels without loss; after a loss the code guarantees only what `ResyncLaw` and `RootResyncLaw` state
- FlashLog.WriteMeaning: only for writes where chunk and timestamp fit the segment; what happens otherwise is in `SpillDamages` and `RefusedMeaning`
- FlashLog.RunConserves: treats the timestamp as bytes of the log; its text is arbitrary
- `esp_ota_end`, which the node calls without looking at its result, and what the boot loader checks
- Stale pointers that a restored snapshot brings into the config header, and the events sent to the application
- The lazy allocation of the config when memory is short, and all other out-of-memory paths
- `mupgrade_firmware_init`, `mupgrade_firmware_download` and `mupgrade_root_handle`: plumbing around the queue; the download on the root is a plain copy
- The setup of the target list from the routing table; a list with more than one address that begins with MWIFI_ADDR_ANY
- Flow control, delays, ticks and timeouts as times; a timeout is the end of what arrives
- Compression, encryption, group addressing and the unicast part of `mwifi_write`
- `mdebug_flash_init` after a restart, NVS saves inside the log, read errors of the partition
- The builders of the single HTTP responses, the requests and the socket options; a response is an argument
- `mlink_json`, `mlink_handle`, `mlink_trigger`, `mlink_notice`, `mconfig_*`, `mdf_mem`, `mdf_event_loop`: field-by-field code or foreign calls that would only add easy members
