# OpenNebula: a verified model of its state-keeping core

This project models the parts of OpenNebula where a wrong step would lose bytes, capacity or access, and proves what
those parts keep over every run. Every main claim is a for-all statement checked by Dafny; `dafny verify dfyconfig.toml`
checks the whole project.

| file | models |
|---|---|
| `Frames.dfy`, `FrameBits.dfy` | HyBi framing of the websocket server (RFC 6455): masking and its word-wise fast path, encoding, decoding, cutting a byte stream into frames; the same bit by bit and byte by byte |
| `Proxy.dfy`, `ProxyRounds.dfy`, `ProxyTheorems.dfy`, `ProxyClosing.dfy` | one client connection, the two-way store-and-forward loop of the console proxy, what one round does and when the loop ends, and how a connection ends |
| `Throttle.dfy` | the wrapped command of the proxy and the window that paces its restarts |
| `Capacity.dfy`, `CapacityTheorems.dfy` | host shares, VM sets, the host pool; the ledger behind the counters |
| `Resize.dfy`, `ResizeFigures.dfy` | the resize request, the way it takes its change back, and how exact both are in single-precision arithmetic |
| `Base64.dfy`, `Driver.dfy`, `Replies.dfy` | the authorization driver's request line, with templates in base64, and the parser of its replies |
| `Attributes.dfy` | attribute names under copying, CDATA text, one-line text of vector attributes |
| `Context.dfy`, `Addresses.dfy`, `Dhcp.dfy` | the context file, the virtual router's address arithmetic and its DHCP configuration |
| `Session.dfy`, `Image.dfy` | a user's login session; an image's counters, permissions and persistency |
| `Sequences.dfy`, `Text.dfy`, `Words.dfy`, `Separators.dfy`, `Ledger.dfy`, `Powers.dfy`, `Floats.dfy`, `FloatText.dfy` | shared vocabulary: first occurrences, decimal text, words, separators that overlap themselves, 32-bit sums, IEEE 754 single-precision numbers and their six-digit text |

How the model is built:

- An object whose methods assign fields is a class with those fields; every method is proved to move the state as a
  function of the old state, and the theorems are about all runs of those functions.
- What the kernel decides (which sockets are ready, how much a send accepts, what a receive returns) is a script with
  one entry per turn of the loop; the clock and the answer of the access control list are parameters. The theorems
  hold for every script.
- C++ `int` counters of a host share are two's-complement: results are wrapped modulo 2^32 (a C++ compiler may do
  otherwise on overflow, so the theorems that matter show that no overflow happens). CPU floats are IEEE 754 binary32
  numbers, counted in units of 2^-149, and every operation rounds to the nearest, ties to even; so do printing one with
  six significant digits and reading it back. Times are reals in the proxy and ints in a session.
- The iteration order of a `std::map` is any order that lists the map once. Ruby's `sort` is an insertion sort here;
  only "ordered" and "the same elements" are used of it.
- Ruby's `String#to_i`, `split` and the regular expression of the context reader are written out for arbitrary text.

What the proofs brought out about the code as it is:

- `recv_frames` does not tell control frames from data frames: the payload of a client's ping or pong is sent to the
  target. The target's stream is the client's data exactly when all pings and pongs are empty
  (`ControlFramesReachTarget`).
- When a connection ends, what is queued is dropped: whatever the client sends in one delivery with its close frame
  never reaches the target, and whatever was undelivered when the target closes never reaches the client
  (`ExitDrops`).
- `decode_hybi` looks for a close reason only above three payload bytes, so exactly the one-byte reasons are lost
  (`CloseRoundTrip`, `CloseIsAnswered`).
- The restart test compares with the mean of the last three starts. Three starts in the last ten seconds are always
  refused, as the comment beside it says; but so is every poll between that and three starts ten seconds ago on
  average (`CommentHolds`, for instance `RefusedAfterOneStart`). In the long run two, not three, restarts pass in ten
  seconds (`RateBound`, `FiveIsReached`).
- A resize charges the host in percent and kilobytes and takes the change back in CPUs and megabytes: the counters are
  restored exactly when less than a hundredth of a CPU (by more than rounding) and no memory was at stake
  (`RollbackRestores`).
- The CPU counter of a host does not always follow the resizes of its VMs: from 0.5 to 0.7 CPUs a VM is charged 20
  percent more, the host 19 (`HalfToSevenTenths`). It follows exactly under the condition of `ResizeThenDelete`. The
  counter is never off by more than two percent for figures up to 10000 CPUs, nor up to 40000 for those that survive
  being stored in six digits (`WithinTwoPercent`, `TwoPercentIsReached`, `SixDigitsSurvive`), and by
  no more than seven for any up to 40000 (`WithinSevenPercent`). Of the quarters of a
  CPU up to 41943 CPUs, those below 10000 CPUs and the halves are tracked exactly; the others leave it four to six
  percent off (`QuartersAgree`).
- The close frame is sent at once, whatever is pending for the client. The client reads it exactly when what it has got
  ends between two frames, as it does when nothing is pending, and the close frame is accepted in full
  (`CloseIsRead`). After a frame cut behind its header the client takes the bytes for data, or waits for more
  (`CloseReachesClient`; `CloseIsSpoiled` is such a run).
- A copied attribute is renamed when its given name started with a spelling of "xml" other than all capitals
  (`CopyKeepsName`).
- The variables of a VM's context are written to one line and read back with the separator " @^_^@ ", a space at either
  end. In between, text without a "$" is copied as it is. Variables without one are not what was written when one
  before the last ends in " @^_^@" (`ContextStored`, `ContextNotReadBack`).
- An image can be created both public and persistent, the combination every later call refuses (`CreationMayBreakIt`).
- The `dhcp-range` line also covers the addresses in use between its ends (`RangeAlsoCoversUsed`).

## Model

| member | source | states |
|---|---|---|
| Frames.UnmaskInPlace | share/websockify/websocket.py:265-273 | the in-place fallback loop leaves in the array the old bytes, each combined with its mask byte |
| Frames.WordsRefineBytes | share/websockify/websocket.py:246-273 | for every mask and length the 32-bit-word fast path with its one-to-three-byte remainder yields the same bytes as the byte loop |
| Frames.UnmaskCancels | share/websockify/websocket.py:265-273 | masking twice with the same mask gives the data back |
| FrameBits.UnmaskBits | share/websockify/websocket.py:271-272 | every bit of an unmasked byte is set exactly when one of the byte's bit and the due mask byte's bit is, and not both |
| FrameBits.PayloadBits | share/websockify/websocket.py:360-366 | of the payload found in a frame, every bit is that exclusive or of the bits on the wire if the frame is masked, and every byte the byte on the wire if not |
| Frames.DecodeWire | share/websockify/websocket.py:303-382 | decoding undoes encoding for masked and unmasked frames of any length, whatever bytes follow: payload, opcode, FIN and the number of bytes left over |
| FrameBits.WrittenHeader | share/websockify/websocket.py:289-300 | the bytes written: FIN and opcode, the length in one, two or eight bytes, the most significant first, the payload as it is |
| FrameBits.PackedBytes | share/websockify/websocket.py:292-296 | every byte of a packed number, in network order |
| FrameBits.UnpackedBytes | share/websockify/websocket.py:340-349 | packing undoes unpacking for any bytes, so the first counts most |
| FrameBits.Defaults | share/websockify/websocket.py:317-325 | without a code a close frame, and any other frame, is reported with code 1000; with one, with its two bytes as a number |
| Frames.DecodeTruncated | share/websockify/websocket.py:327-354 | every proper prefix of a frame is recognised as incomplete |
| Frames.DecodeProgress | share/websockify/websocket.py:327-357 | a decoded frame uses up at least two bytes and an incomplete one none, so the receive loop ends |
| Frames.DecodeExtends | share/websockify/websocket.py:351-382 | bytes after a complete frame change nothing but the count of bytes left |
| Frames.CloseRoundTrip | share/websockify/websocket.py:376-380 | the server reads back the code of a close frame it builds always, and the reason if and only if it is not one byte long |
| Frames.ParseInstalments | share/websockify/websocket.py:490-510 | receiving a stream in any two pieces with the incomplete tail kept in between finds the same payloads, close request and tail as receiving it at once |
| Frames.ParsePrefix | share/websockify/websocket.py:500-558 | from any prefix of a stream of frames exactly the payloads of the frames contained in full are found, and the rest is kept |
| Frames.ParseAll | share/websockify/websocket.py:500-558 | a stream of complete frames yields exactly their payloads and keeps nothing |
| Frames.ParseStream | share/websockify/websocket.py:500-558 | of any stream of frames exactly the payloads before the first close frame are found, and a close request if and only if there is such a frame |
| Proxy.Connection.constructor | share/websockify/websocket.py:772-774 | a new connection has nothing pending in either direction |
| Proxy.Connection.SendFrames | share/websockify/websocket.py:435-477 | the queue and the bytes the client accepted after encoding, appending and sending until the socket stops; returns the number of frames pending |
| Proxy.Connection.RecvFrames | share/websockify/websocket.py:479-558 | the receive loop returns what parsing the kept tail and the new bytes as one stream finds, and keeps the incomplete rest |
| Proxy.DoProxy | share/websockify/websocketproxy.py:235-292 | the imperative loop with its three local queues reaches exactly the state of the run that the theorems are about, and never pops an empty queue |
| Proxy.RunStopped | share/websockify/websocketproxy.py:266-292 | once either side has closed, no later round changes anything |
| ProxyRounds.FlushSends | share/websockify/websocket.py:465-477 | sending goes through the pending frames exactly until one is accepted only in part, whose rest stays in front, or none is left |
| ProxyRounds.RoundMoves | share/websockify/websocketproxy.py:249-286 | the bytes a round moves: the first queued chunk to a ready target, what a readable target writes, what a readable client sends, frames to a ready client something waited for; nothing else, and nothing after the target hung up |
| ProxyRounds.EndsWhen | share/websockify/websocketproxy.py:264-292 | over every run the loop has ended with the target closed if and only if it hung up in a round of the running loop; with the client gone if and only if it delivered nothing; with a close request if and only if all the client has sent contains that request; the target is looked at first |
| ProxyTheorems.StreamsPreserved | share/websockify/websocketproxy.py:239-292 | in every reachable state bytes accepted by the target followed by its queue are what the client's bytes decode to, and bytes accepted by the client followed by pending and unframed chunks are one frame per chunk read from the target |
| ProxyTheorems.WatchedIffUndelivered | share/websockify/websocketproxy.py:247-249 | the loop waits for the client to be writable if and only if some byte read from the target has not been accepted by it |
| ProxyTheorems.TargetSeesPrefix | share/websockify/websocketproxy.py:252-261 | whatever the piece sizes of the network and the partial sends, the target holds a prefix of the payloads in order, of those before the first close frame if there is one |
| ProxyTheorems.ClientSeesPrefix | share/websockify/websocketproxy.py:264-280 | what the client accepted decodes to the first chunks the target wrote, one frame each in order; all of them when nothing is waited for |
| ProxyTheorems.ControlFramesReachTarget | share/websockify/websocket.py:512-551 | at any time, of the frames that have arrived in full before the client closed, the bytes sent and queued for the target are the data frames if and only if every control frame among them is empty |
| ProxyTheorems.FoundSoFar | share/websockify/websocket.py:500-558 | of any beginning of a stream of frames exactly the payloads of the frames that are there in full before the first close frame have been found |
| ProxyTheorems.TargetDrains | share/websockify/websocketproxy.py:244-261 | with a target that takes a byte when ready, everything received from the client at some point has reached it after as many ready rounds as bytes and chunks were queued, whatever else arrives while the connection lasts; with nothing new from the client the queue is then empty |
| ProxyTheorems.ClientDrains | share/websockify/websocketproxy.py:276-280 | one frame for every chunk read from the target at some point has reached the client after as many ready rounds as bytes were undelivered, whatever else arrives; with nothing new from the target nothing then waits |
| ProxyClosing.CloseEndsLoop | share/websockify/websocketproxy.py:283-292 | a close frame anywhere in the client's stream ends the loop with its request; exactly the payloads before it have been sent to the target or are queued for it |
| ProxyClosing.CloseIsAnswered | share/websockify/websocketproxy.py:288-292 | the frame the server builds to answer with repeats code and reason if and only if the reason is not one byte long |
| ProxyClosing.ExitDrops | share/websockify/websocketproxy.py:266-292 | at either exit exactly the queued bytes are lost: the target has everything if and only if the last round emptied its queue and the last delivery carried no payload; the client, when the target closes, if and only if the loop was not waiting for it |
| ProxyClosing.CloseIsRead | share/websockify/websocket.py:560-567 | after any run, of the first k bytes of a close frame the client reads the request, after the data it had and nothing else, if and only if what it had got ended between two frames and k is all of it; the first holds when the loop was not waiting for the client |
| ProxyClosing.CloseReachesClient | share/websockify/websocket.py:560-567 | what becomes of it in a frame whose header has arrived: not read while more bytes are missing than come, and else its first bytes end the data of that frame |
| ProxyClosing.CloseIsSpoiled | share/websockify/websocketproxy.py:276-292 | a run of two rounds after which the client takes the close frame for data |
| Throttle.WrapServer.constructor | share/websockify/websocketproxy.py:118-119 | after server start the command was started once and the window holds two zeros and that time |
| Throttle.WrapServer.RunWrapCmd | share/websockify/websocketproxy.py:85-91 | a start shifts the window by one and is recorded |
| Throttle.WrapServer.DoPoll | share/websockify/websocketproxy.py:121-145 | one poll in each of the three modes, with all fields it leaves |
| Throttle.WindowHolds | share/websockify/websocketproxy.py:52-91 | in every run the window holds the last three start times, zeros before the first, and every restart came at least ten seconds after the mean of the three before it |
| Throttle.OneStart | share/websockify/websocketproxy.py:130-135 | when not respawning there is one start in every run; in mode exit the server has exited if and only if some poll found the command ended, in mode ignore never |
| Throttle.RespawnPoll | share/websockify/websocketproxy.py:136-145 | when respawning, what each poll does: nothing while the command runs; else a start or a refusal, by the mean of the last three starts, with the message given once for each start; the server never exits |
| Throttle.StartsOrdered | share/websockify/websocketproxy.py:85-91 | with a clock that does not run backwards, recorded starts never decrease and never lie in the future |
| Throttle.RateBound | share/websockify/websocketproxy.py:136-145 | any four consecutive starts span ten seconds, and starts i and j are at least 5(j-i-2) seconds apart |
| Throttle.AtMostThreePerTen | share/websockify/websocketproxy.py:136-145 | any half-open window of 10k seconds holds at most 3k starts |
| Throttle.FiveIsReached | share/websockify/websocketproxy.py:136-145 | the five-second spacing is tight: a run of any length restarts every five seconds |
| Throttle.RestartsWhenDue | share/websockify/websocketproxy.py:130-145 | ten seconds after the last start, the next poll that finds the command gone restarts it |
| Throttle.RefusesIff | share/websockify/websocketproxy.py:137-145 | a gone command is refused a restart if and only if its last three starts are on average less than ten seconds ago |
| Throttle.CommentHolds | share/websockify/websocketproxy.py:137-145 | three starts in the last ten seconds are always refused, and the test agrees with that rule if and only if there are three or the last three are ten seconds ago on average |
| Throttle.RefusedAfterOneStart | share/websockify/websocketproxy.py:139-140 | a run in which they differ: refused though only one start was made in the last ten seconds |
| Capacity.HostShare.constructor | src/host/HostShare.cc:30-47 | a new share uses nothing and has the given limits |
| Capacity.HostShare.AddVm | include/HostShare.h:48-55 | all three counters and the VM count move, in 32-bit arithmetic; limits do not |
| Capacity.HostShare.UpdateVm | include/HostShare.h:63-68 | the three counters move, the VM count does not |
| Capacity.HostShare.DelVm | include/HostShare.h:76-83 | the reverse of an add |
| Capacity.ObjectCollection.AddId | src/pool/ObjectCollection.cc:85-97 | the set gains the id; 0 if it was new, -1 otherwise |
| Capacity.ObjectCollection.DelId | src/pool/ObjectCollection.cc:102-110 | the set loses the id; 0 if it was there, -1 otherwise |
| Capacity.Host.AddVm | include/Host.h:327-341 | set and share move together, and a repeated add changes nothing |
| Capacity.Host.DelVm | include/Host.h:352-366 | set and share move together, and a stray delete changes nothing |
| Capacity.Host.UpdateVm | include/Host.h:376-379 | only the share's usage moves |
| Capacity.HostPool.AddVm | include/HostPool.h:127-139 | exactly the named host changes; none when it does not exist |
| Capacity.HostPool.DelVm | include/HostPool.h:149-161 | exactly the named host changes; none when it does not exist |
| Capacity.HostPool.Drop | include/HostPool.h:163-174 | the host leaves the pool if and only if 0 is returned; no other host changes |
| CapacityTheorems.HostLedger | include/Host.h:327-379 | over every run, with no condition on amounts: VM set = VMs with a charge and, modulo 2^32, VM count = its size and usage = sum of charges plus drift; so usage is the sum if and only if the drift is 0 modulo 2^32 |
| CapacityTheorems.NoDrift | include/Host.h:343-379 | when deletes return the VM's current charge and resizes are for hosted VMs, there is no drift |
| Ledger.WrapIs | include/HostShare.h:48-83 | a counter is in the range of a 32-bit int and differs from the unbounded result by a multiple of 2^32 |
| CapacityTheorems.TestIsExact | include/HostShare.h:94-99 | with usage in range the machine comparison is the unbounded usage + request <= limit |
| CapacityTheorems.AdmissionBound | include/HostShare.h:48-99 | over every admitted run from a host within its limits usage is the plain sum of charges and stays between 0 and the limit, no sum or difference overflows, the test decides the unbounded condition for every request, and the VM count is the number of VMs while that fits an int |
| CapacityTheorems.OpenedWithin | src/host/HostShare.cc:30-47 | a new host is within its limits |
| CapacityTheorems.PoolRunIsPool | include/HostPool.h:127-174 | every run of the pool of hosts is the run of the pool with ledgers, without the ledgers |
| CapacityTheorems.PoolConservation | include/HostPool.h:127-174 | over every run of adds, deletes, resizes and drops of the pool of hosts, from any state in which each host's counters are its charges, the counters of all hosts add up to the charges of all placements, modulo 2^32 |
| CapacityTheorems.EmptyIsExact | include/HostPool.h:127-174 | a pool of empty hosts is such a state |
| CapacityTheorems.OnlyEmptyHostsDropped | include/HostPool.h:163-174 | after any run, whatever amounts were deleted, a host is dropped if and only if the data base agrees and it carries no VM, and takes no charge with it |
| CapacityTheorems.MoveConserves | include/HostPool.h:127-161 | adding a VM at one host and deleting it at another with the same charge moves exactly that placement and leaves the total charge of the pool as it was, and the total usage modulo 2^32 |
| Floats.FlIsNearest | src/rm/RequestManagerVirtualMachine.cc:1271 | the result of a float operation is a nearest representable number to the exact result |
| Floats.FlMonotone | src/rm/RequestManagerVirtualMachine.cc:1392 | rounding keeps the order of exact results |
| Floats.RoundTies | src/rm/RequestManagerVirtualMachine.cc:1392 | of two equally near multiples the even one is taken |
| Resize.TruncIs | src/rm/RequestManagerVirtualMachine.cc:1392 | a float is converted to the nearest int between it and zero |
| Resize.Execute | src/rm/RequestManagerVirtualMachine.cc:1256-1514 | the host's share after a resize of a powered-off VM in single-precision arithmetic, for each way the VM may be found on the second look, and when the request succeeds |
| Resize.SuccessCharges | src/rm/RequestManagerVirtualMachine.cc:1390-1428 | a resize that succeeds leaves the host with its usage plus the change of the VM's requirements: memory always, CPU if and only if the truncations agree; nothing else changes |
| Resize.RefusedWhen | src/rm/RequestManagerVirtualMachine.cc:1305-1422 | on a host within its limits a request is refused if and only if a figure is negative or, when enforced, the host would get over a limit; so an enforced success leaves it within |
| Resize.RollbackRestores | src/rm/RequestManagerVirtualMachine.cc:1390-1508 | the roll-back restores the counters if and only if no memory was asked for and a hundred times the CPU difference is below one by more than 2^-25 |
| Resize.RollbackLeaves | src/rm/RequestManagerVirtualMachine.cc:1445-1508 | what a roll-back leaves: the percentage less the whole CPUs of the difference, and 1023 times the memory |
| Resize.ResizeTracksRequirements | src/rm/RequestManagerVirtualMachine.cc:1390-1424 | the change put on the host is the change of the VM's requirements: memory always, CPU if and only if the fractions dropped and the rounding error of the difference do not add up to a whole percent |
| Resize.AgreementIsOrder | src/rm/RequestManagerVirtualMachine.cc:1390-1424 | where no operation rounds, that condition is that the greater figure has the greater fraction of a percent |
| Resize.ResizeThenDelete | src/vm/VirtualMachine.cc:1300-1320 | a VM resized and later deleted with its then requirements leaves the host's counters as exact as before if and only if that condition holds, whatever the stored figure is read back as |
| FloatText.SixDigitsSurvive | src/vm/VirtualMachine.cc:1363-1368 | a figure of at most six significant digits, in the range of normal numbers, is printed as it was read and read back as the same float |
| FloatText.RereadNear | src/vm/VirtualMachine.cc:1363-1368 | a figure below 10000 is read back to within six thousandths, one up to 40000 to within 0.0524 |
| ResizeFigures.WithinTwoPercent | src/rm/RequestManagerVirtualMachine.cc:1390-1424 | the CPU change put on the host is at most two percent off what the VM is charged for once the new figure is stored and read back: for figures up to 10000 CPUs, and up to 40000 when the new one survives that |
| ResizeFigures.WithinSevenPercent | src/rm/RequestManagerVirtualMachine.cc:1390-1424 | for any figures up to 40000 CPUs it is at most seven percent off |
| ResizeFigures.TwoPercentIsReached | src/rm/RequestManagerVirtualMachine.cc:1390-1424 | two percent off is possible: from 0.59 to 1.64 CPUs |
| ResizeFigures.QuartersAgree | src/vm/VirtualMachine.cc:1363-1368 | figures in quarters of a CPU, up to 41943 CPUs, are tracked exactly if and only if the new one is below 10000 CPUs or in halves; else the counter is four to six percent off |
| ResizeFigures.HundredthsCharged | src/vm/VirtualMachine.cc:1315 | a figure of two decimals, from 1 to 50000 CPUs, is charged its percents or one less |
| ResizeFigures.HalfToSevenTenths | src/rm/RequestManagerVirtualMachine.cc:1390-1424 | from 0.5 to 0.7 CPUs the VM's charge goes from 50 to 70 and the host's by 19 |
| ResizeFigures.HundredthEitherWay | src/rm/RequestManagerVirtualMachine.cc:1437-1458 | by a hundredth of a CPU the roll-back restores the counters from 0.57 to 0.58 and does not from 0.01 to 0.02 |
| Driver.AuthRequest.constructor | include/AuthRequest.h:39 | a new request is empty and grants |
| Base64.EncodeInjective | src/common/NebulaUtil.cc:76-105 | two texts with the same base64 encoding are the same |
| Base64.EncodedGroup | src/common/NebulaUtil.cc:76-105 | the encoding is, group by group of three bytes, the letters for the four times six bits of its 24, with equals signs for what is missing |
| Driver.AuthRequest.AddTarget | src/authm/AuthManager.cc:32-109 | one request text is appended for the item and the verdict stays "all were granted" |
| Driver.AuthRequest.AddAuth | include/AuthRequest.h:108-112 | the item for an operation on an object by its id |
| Driver.AuthRequest.AddCreateAuth | include/AuthRequest.h:90-98 | the item for the creation of an object, by its template, or with id -1 without one |
| Driver.AuthRequest.GetAuths | include/AuthRequest.h:119-137 | the request texts joined by single spaces, the empty text for none |
| Driver.AuthRequest.CoreAuthorize | include/AuthRequest.h:139-142 | user 0 or everything granted |
| Driver.AuthorizeWords | src/authm/AuthManagerDriver.cc:28-38 | the words of the printed line are keyword, ids, the exact list of requests and the verdict if and only if every request is a word; the empty list included |
| Driver.ItemReadable | src/authm/AuthManager.cc:36-86 | a request text is one word and its five fields are what stands between the colons |
| Driver.LineReadable | src/authm/AuthManagerDriver.cc:28-38 | the line for any list of items tells ids, verdict, number of items and all their fields |
| Driver.LineUnique | src/authm/AuthManagerDriver.cc:28-38 | two requests with the same line are the same: ids, verdict, and the list of items with object or template |
| Driver.FieldsDetermine | src/authm/AuthManager.cc:39-82 | two items have the same five fields if and only if they are the same item |
| Driver.LineWords | src/authm/AuthManagerDriver.cc:35 | the words of the line literally: AUTHORIZE, the ids in decimal, the requests, and 1 if and only if the access control list grants all, else 0 |
| Driver.ItemFields | src/authm/AuthManager.cc:39-82 | the fields of a request literally: type, id in decimal or template in base64, operation, owner, and 1 if and only if it is granted, else 0 |
| Driver.GrantedFields | src/authm/AuthManager.cc:82-84 | everything is granted if and only if the text of every request says so |
| Replies.HandleMessage | src/authm/AuthManagerDriver.cc:63-123 | the step-by-step parser computes the outcome the theorems are about, at most one notification |
| Replies.WellFormedNotifies | src/authm/AuthManagerDriver.cc:78-120 | every message of two words and a 32-bit int that is not for the log notifies that id with the verdict and the first line of what follows |
| Replies.NotifiedIsWellFormed | src/authm/AuthManagerDriver.cc:78-120 | and no other message notifies anything |
| Replies.LoggedWhen | src/authm/AuthManagerDriver.cc:90-112 | a message of three tokens goes to the log if and only if the first is LOG, also when the third is no int |
| Replies.FewTokens | src/authm/AuthManagerDriver.cc:78-105 | of a message with fewer than three tokens nothing comes |
| Replies.NumeralSigns | src/authm/AuthManagerDriver.cc:90 | the value of an id with and without a sign |
| Replies.ReplyRoundTrip | src/authm/AuthManagerDriver.cc:63-123 | a reply printed by a driver is answered with exactly its id, verdict and information if and only if it is not for the log and the information is one line not starting with white space |
| Attributes.SingleAttribute.constructor | include/Attribute.h:35-53 | the stored name is the normalised given name |
| Attributes.SingleAttribute.Clone | include/Attribute.h:125-128 | a copy is a new object whose name is normalised once more, with the same value |
| Attributes.SingleAttribute.Replace | include/Attribute.h:183-186 | the value changes, the name does not |
| Attributes.SingleAttribute.ToXml | include/Attribute.h:162-170 | the text of an attribute is read back as its name and value if and only if neither contains its own terminator |
| Attributes.CopyKeepsName | include/Attribute.h:35-53 | a copy keeps the name if and only if the given name did not start with a spelling of XML other than capitals |
| Attributes.SecondCopyKeepsName | include/Attribute.h:199-202 | a copy of a copy always keeps the name |
| Attributes.NormalisedIs | include/Attribute.h:35-53 | a stored name has no lower-case letter, starts with a letter, and is the given one in upper case, behind ONE_ if and only if that starts with no letter or with XML |
| Text.CasesOf | include/Attribute.h:37-41 | only the case of ASCII letters changes |
| Attributes.XmlRoundTrip | include/Attribute.h:162-170 | under section 2.7 of XML 1.0 name and value are read back if and only if the name has no ">" and the value no "]]>" |
| Attributes.VectorAttribute.Marshall | src/common/Attribute.cc:28-64 | the entries in iteration order as NAME=VALUE joined by the separator; nothing for an empty attribute |
| Attributes.VectorAttribute.Unmarshall | src/common/Attribute.cc:108-160 | the old entries and those of the pieces; a piece without "=" is skipped and a name already there keeps its value |
| Attributes.PieceAdds | src/common/Attribute.cc:143-158 | NAME=VALUE gives a new name its value and leaves an old one; a piece without "=" adds nothing |
| Attributes.UnmarshalledKeeps | src/common/Attribute.cc:108-160 | reading a line keeps what the attribute had |
| Attributes.MarshallRoundTrip | src/common/Attribute.cc:28-160 | the text is read back if and only if no name has "=" and every entry can be told from the separator after it |
| Attributes.MagicSeparatorClean | src/common/Attribute.cc:25-26 | which texts can be told from the built-in separator |
| Attributes.ContextSeparatorClean | src/vm/VirtualMachine.cc:648 | which texts can be told from the separator of context variables |
| Attributes.ContextMarshallRoundTrip | src/vm/VirtualMachine.cc:648-722 | context variables written and read back are the same if and only if no name has "=", none before the last contains that separator or ends in it less its last space, and the last does not contain it |
| Attributes.ContextStored | src/vm/VirtualMachine.cc:648-722 | context variables without "$" are what the VM is left with after writing, substitution and reading, under the same condition |
| Attributes.ContextNotReadBack | src/vm/VirtualMachine.cc:648-722 | a variable whose value ends in " @^_^@", followed by another, is not read back; without "$" the VM is left with other variables |
| Separators.CleanIff | src/common/Attribute.cc:128-141 | a piece followed by a separator is cut where it ends if and only if it does not contain the separator and does not end in a beginning of it that the separator completes |
| Separators.SplitJoin | src/common/Attribute.cc:128-141 | splitting undoes joining if and only if every piece can be told from the separator after it |
| Context.GenerateContext | src/vm/VirtualMachine.cc:2414-2423 | the header line and one KEY="VALUE" line for each entry in order |
| Context.ReadContext | share/router/vmcontext.rb:551-567 | the loop over the lines computes the fold in which a later line for a key wins and other lines contribute nothing |
| Context.ParseIsLazyMatch | share/router/vmcontext.rb:558-564 | a line that is no comment gives key and value if and only if the pattern matches, with the shortest key for which it does |
| Context.ReadIsLast | share/router/vmcontext.rb:557-566 | of any text a key is read if and only if some line gives it, with the value of the last such line |
| Context.NothingFrom | share/router/vmcontext.rb:558-560 | a comment and a line that does not end in a quote give nothing |
| Context.WrittenLines | src/vm/VirtualMachine.cc:2416-2421 | the lines of the file literally |
| Context.ContextRoundTrip | share/router/vmcontext.rb:551-567 | a context is read back with lower-case keys, the last value of a key, whenever no key or value has a line end, no key has `="` and none starts with "#"; when the keys are distinct in lower case, only then |
| Addresses.ComputeIpToInt | share/router/vmcontext.rb:472-476 | the loop computes the base-256 value of the parts of any text |
| Addresses.ComputeIntToIp | share/router/vmcontext.rb:478-485 | the loop computes the dotted quad of any integer |
| Addresses.IntRoundTrip | share/router/vmcontext.rb:472-485 | an integer comes back modulo 2^32, so unchanged if and only if it is in range |
| Addresses.QuadRoundTrip | share/router/vmcontext.rb:472-485 | a text comes back unchanged if and only if it is a canonical dotted quad |
| Addresses.QuadValue | share/router/vmcontext.rb:472-476 | the value of a dotted quad, its first number counting most |
| Addresses.ToIReads | share/router/vmcontext.rb:474 | white space, a sign, digits and then something else is read as the number with the sign |
| Addresses.ToIZero | share/router/vmcontext.rb:474 | what has neither a sign nor a digit is read as zero |
| Addresses.RunUnderscore | share/router/vmcontext.rb:474 | an underscore between digits does not count |
| Addresses.PrefixSkipped | share/router/vmcontext.rb:495 | a zero with the letter of the base in front does not count |
| Addresses.EmptyTail | share/router/vmcontext.rb:474 | empty pieces at the end do not count and all others do |
| Addresses.MacRoundTrip | share/router/vmcontext.rb:487-496 | canonical quads and lower-case MAC addresses under the prefix correspond, and the conversions undo each other |
| Addresses.Ip2MacInjective | share/router/vmcontext.rb:487-492 | no two canonical quads share a MAC address |
| Dhcp.ComputeRange | share/router/vmcontext.rb:445-454 | the loop over a range, skipping what is in use |
| Dhcp.ComputeListed | share/router/vmcontext.rb:455-466 | the loop over the leases, skipping what is in use |
| Dhcp.ComputePairs | share/router/vmcontext.rb:436-470 | either mode, then sorted by number |
| Dhcp.ConfigureDnsmasq | share/router/vmcontext.rb:276-290 | the lines of the configuration file in order |
| Dhcp.RangeEnumeration | share/router/vmcontext.rb:441-469 | in range mode the free numbers in strictly ascending order, each once with its quad and MAC, the sort changing nothing |
| Dhcp.RangeMembers | share/router/vmcontext.rb:445-453 | which numbers these are: in the range and not marked as used |
| Dhcp.UsedIsSomeLease | share/router/vmcontext.rb:449-451 | with at most one lease for an address, used means some lease for it is used |
| Dhcp.FirstLeaseDecides | share/router/vmcontext.rb:449-451 | whatever the leases, an address is used if and only if its first lease says 1 |
| Dhcp.InUseMeans | share/router/vmcontext.rb:450 | a lease is in use if and only if the number in its USED element is 1 |
| Dhcp.RangePairsAre | share/router/vmcontext.rb:446-453 | in range mode every pair is a number, its quad, and the MAC address of that |
| Dhcp.LeasePairsAre | share/router/vmcontext.rb:456-466 | in lease mode a pair is there if and only if a lease not in use has its address, MAC address and number |
| Dhcp.LeaseEnumeration | share/router/vmcontext.rb:455-469 | in lease mode an ordered permutation of the unused leases |
| Dhcp.SortSorts | share/router/vmcontext.rb:469 | the sort orders and keeps every element as often as it occurs |
| Dhcp.RangeCoversHosts | share/router/vmcontext.rb:278-288 | the ends of the range line belong to the least and greatest number and every host line to a number between them; the address texts denote these numbers if and only if those of a range fit 32 bits |
| Dhcp.RangeAlsoCoversUsed | share/router/vmcontext.rb:278-288 | of the numbers between those at the ends, exactly those in use have no host line |
| Session.User.constructor | include/User.h:305-324 | a new user has no session |
| Session.User.InvalidateSession | include/User.h:239-243 | token and expiration are cleared, the rest stays |
| Session.User.StartSession | include/User.h:252-256 | token and expiration are set, the rest stays |
| Session.User.ChangePassword | include/User.h:112-127 | a valid password is stored and ends the session; an invalid one changes nothing and returns -1 |
| Session.User.ChangeAuthDriver | include/User.h:145-151 | the driver is stored and the session ends |
| Session.User.TurnOn | include/User.h:82-85 | enabling leaves the session alone |
| Session.User.TurnOff | include/User.h:90-94 | disabling ends the session |
| Session.SessionFollowsLastCall | include/User.h:230-256 | after every run a token is accepted if and only if the last call that touched the session opened one for it that has not run out; before any such call none is, not even the empty one |
| Session.LoggedOutUntilLogin | include/User.h:90-151 | after disabling, a new driver or a valid new password no token is accepted until the next login, whatever else is called |
| Session.FieldsFollowLastCall | include/User.h:82-151 | after every run password, driver and enabled are those of the last call that set them, with invalid passwords passed over |
| Session.PassIsValidIff | src/um/User.cc:31 | a password is taken if and only if it is not empty and has neither a blank nor a character with a code from 9 to 13 |
| Image.ImageObject.constructor | src/image/Image.cc:37-70 | permissions, persistency and counters of a new image |
| Image.ImageObject.IncRunningVm | include/Image.h:283-291 | a VM is counted once |
| Image.ImageObject.DecRunningVm | include/Image.h:273-281 | only a counted VM is discounted |
| Image.ImageObject.IncCloningOp | include/Image.h:313-321 | a clone is counted once |
| Image.ImageObject.DecCloningOp | include/Image.h:303-311 | only a counted clone is discounted |
| Image.ImageObject.ChangePermissions | include/Image.h:366-388 | all nine rights or none change, and when the call is refused |
| Image.ImageObject.ChangePersistent | include/Image.h:397-447 | the flag changes unless the image is in use or would be public and persistent |
| Image.NeverPublicAndPersistent | include/Image.h:273-447 | no run leads from a state that is not both public and persistent, with counters equal to set sizes, to one that is not |
| Image.CreationMayBreakIt | src/image/Image.cc:134-162 | a new image is public and persistent if and only if its type allows and its template asks for persistency and the mask leaves group or others the use right |
| Image.PersistencyFrozen | include/Image.h:397-407 | while an image is in use or being cloned its persistency does not change, whatever is called |
| Image.RunningFollowsLastCall | include/Image.h:273-291 | after every run a VM is counted if and only if the last call about it was to count it |
| Image.CloningFollowsLastCall | include/Image.h:303-321 | the same of clones |
| Image.PermissionsTaken | src/pool/PoolObjectSQL.cc:276-312 | the nine rights are taken, -1 keeping the old, if and only if all are legal and do not publish a persistent image; else nothing changes |
| Image.PersistencyTaken | include/Image.h:397-447 | persistency is set as asked if and only if the image is neither in use nor cloned and would not be both persistent and public |
| Image.CreatedRights | src/pool/PoolObjectSQL.cc:317-350 | the nine rights of a new image by its owner, the site and the mask |

## Left out

- The base64 sub-protocol and the older Hixie versions of the websocket protocol, the handshake, TLS, recording, traffic marks, and exceptions of a socket call.
- `get_target`, option parsing and the start of processes; a poll sees whether the command has ended.
- Proxy.DoProxy: does not model the exception `do_proxy` raises; the run ends with the code and reason it would carry.
- Frames.DecodeWire: payloads are shorter than 2^64 bytes, the most the format can announce.
- Host monitoring data and states, `Host::disable`, SQL, hooks and locks; an update of a host in the data base is assumed to work.
- Capacity.HostPool.Drop: the data base error is a parameter, and the dropped object is one of the pool's hosts.
- Resize.Execute: models the VM that has a host; quotas, VCPU and a host that has vanished in between are not part of it. The second check inside the VM repeats one already passed. Float operations round to single precision each, as on machines without extended registers; infinities and NaN are not modelled.
- Resize.RollbackRestores: assumes that the CPU increment in percent fits an int; the conversion of a larger float is undefined in C++.
- Resize.ResizeThenDelete: assumes the same of the figures involved; what the CPU attribute, stored as text, is read back as is a parameter.
- FloatText.SixDigitsSurvive: printing and reading are correctly rounded, ties to even, as in the GNU C library.
- ResizeFigures.WithinTwoPercent: above 10000 CPUs only for figures that survive being stored; `WithinSevenPercent` has the others.
- ProxyClosing.CloseIsRead: the client is taken to decode as the server does.
- ProxyClosing.CloseReachesClient: of a frame of which not even the header has arrived it does not say what the client makes of the bytes, which depends on them; `CloseIsRead` says that it does not read the close.
- Attributes.ContextMarshallRoundTrip: writing and reading alone; `ContextStored` has the substitution in between.
- Attributes.ContextStored: what the substitution makes of text with a "$" is a parameter; text with a NUL, where the scanner stops, is left out.
- CapacityTheorems.OnlyEmptyHostsDropped: assumes fewer than 2^31 VMs on a host, since their ids are non-negative ints.
- `Driver` does not model the error message `add_auth` collects, the AUTHENTICATE line, the digest of a password, or the access control list, whose answer is a parameter.
- Driver.AuthRequest.AddCreateAuth: a template is XML text, as the format of the line says and every caller passes; whether it could be encoded (memory) is a parameter, and a template that could not is recorded as "-".
- Replies.HandleMessage: what a LOG message prints is not modelled, only that it notifies nothing; where nothing follows the id, both behaviours that C++ libraries give `>> ws` are covered by a parameter.
- `VectorAttribute::to_xml`, XML parsing and names outside ASCII.
- Attributes.MarshallRoundTrip: for separators that are not empty and contain no "=", as all those in use.
- Context.ContextRoundTrip: with keys that differ only in case an unwritable entry may still be overwritten, so that direction is stated for distinct keys. An empty key needs a Ruby that has the empty symbol. Opening the files, FILES and DISK_ID are not modelled.
- Addresses.MacRoundTrip: `ip2mac` of a part that is not a plain decimal number (octal or prefixed numerals, or text that makes it raise) gives none in the model.
- Dhcp.ComputeRange: takes the test for use and the conversions as functions; a lease has all three of its elements, and which lease decides for an address is the first.
- Dhcp.ComputePairs: sorts a value; Ruby's own sorting algorithm is not modelled.
- Session.SessionFollowsLastCall: assumes a clock that is not negative, and times that do not overflow.
- `Image` takes its state as set from outside; the counters are unbounded, and types, templates and sizes are not modelled.
- The life cycle of a virtual machine, leases and networks, quotas, access control rules, the XML-RPC interface, mounting, routing, firewall and IPv6 set-up of the router.
