# A Dafny model of the encrypting packet forwarder

The forwarder sits between LAN and WAN interfaces. It selects a crypto policy for each packet, encrypts the
packet at layer 2, 3 or 4, splits it in two when the result would exceed the MTU, and undoes all of this on the
other side, while configuration can be replaced under running packet threads. This project models that core and
proves what it promises. Everything around the cipher is concrete byte arithmetic and state; the cipher itself is
a value of type `PacketCrypto.Cipher` that is only assumed to be `Lawful`: lengths are kept, CTR is its own
inverse, GCM accepts and undoes what it produced.

Code that works in place (packet buffers, tables, rings, the merge destination) is written as methods on arrays and
classes, proved against functions on values; the properties are then lemmas about those functions. Whatever the
code takes from outside (clock, random salt, counters, success of an allocation or of a context initialisation) is
a parameter.

| part | files |
|---|---|
| bytes, buffers, checksums, headers | `Basics`, `Bytes`, `InternetChecksum`, `TransportChecksum`, `Ipv4` |
| nonces, key slots, the trial loop | `PacketCrypto` |
| tunnelling at three layers | `Tunnel`, `Layer2`, `Layer3`, `Layer4` |
| splitting, reassembly, the fragment table over whole runs, sizes | `Fragmentation`, `FragTable`, `FragHistory`, `SizeBounds` |
| policies: wire ids, dispatch, selection, merging | `Config`, `Dispatch`, `FragmentDispatch`, `GracePeriod`, `PolicySelect`, `Merge`, `MergeInPlace`, `MergePorts` |
| hot reload | `ReloadGate`, `PolicyRuntime` |
| chained tables and scheduling | `Chains`, `FlowKeys`, `FlowTable`, `TcpPins`, `WeightedRoundRobin` |
| ARP cache, frame pipeline | `ArpCache`, `FramePipeline`, `WorkerPaths` |
| an input for each limit of the code | `Limits` |

`dafny verify dfyconfig.toml` checks the whole project.

## Where the code does less than one might expect

The code was kept as it is. Each of these is a lemma with the condition, which is exact unless the text says otherwise,
and a lemma with an input that shows it.

- A restored header equals the original exactly when it was canonical (`Ipv4.PatchFixpoint`). One's complement has
  two zeros, so a header whose checksum field holds 0xFFFF where the sum gives 0 passes the receive verifier and is
  not reproduced (`Ipv4.VerifiesVersusCanonical`; `Limits.ZeroSumHeader`). The same holds for TCP and UDP checksums,
  and a UDP checksum of 0 is replaced (`Layer3.RestoredIff`, `TransportChecksum.UdpVerifiesIff`).
- Layer 3 restores a whole packet exactly when its protocol is not 0x5C and, in CTR mode, TCP and UDP payloads have
  a nonzero port (`Layer3.PacketRoundTripIff`; `Limits.FakeFragment`, `Limits.PortsZero`). It leaves a packet in clear
  when the payload byte at nonce size + 1 is 0x5C (`Layer3.ToEncrypt`; `Limits.LeftInClear`).
- Layer 2 restores a whole packet exactly when the first sealed byte is not 0x5B, in CTR mode the IP header is
  plausible, and the packet does not start with the bytes 08 00 (`Layer2.PacketRoundTripIff`; `Limits.MarkerByChance`,
  `Limits.UnknownProtocol`, `Limits.OldFormat`).
- Layer-3 fragments of UDP datagrams arrive exactly when their first half fails the TCP header test
  (`Fragmentation.SplitRoundTrip`; `Limits.DatagramTakenForTcp`). Layer-2 fragments need an IPv4 version nibble and a
  second half of at least 20 bytes, which also rules out first halves so short that joining would put stale bytes
  behind them (`Fragmentation.TailFollows`, `Fragmentation.JoinWrong`; `Limits.StaleBytes`). Packets that the need-split
  test sends there, up to 2783 bytes, always meet the size conditions (`SizeBounds.SplitDelivers`).
- Reassembly limits the two halves to 4096 bytes together, but not the headers in front of them, and every caller's
  buffer has 4096 bytes. The joined packet fits exactly when headers and halves do (`Fragmentation.RoomIff`;
  `Limits.HeadersNotCounted` shows 4170 bytes). Second halves within the size of an encrypted fragment always fit
  (`Fragmentation.FragmentsFit`), and splitting makes no others (`Fragmentation.SplitRoundTrip`).
- The previous policy set restores a packet it has encrypted at layer 3 exactly when the current configuration still
  lists the wire id and has no context for it: an id it does not list is not recognised, and a context it has is tried
  first, which puts the protocol byte back (`GracePeriod.RestoredByPrevIff3`; `Limits.NewKeyLosesPackets`). Original
  packets whose protocol is the fake one are excepted from the "only if". At layer 4 the condition is exact when the
  current policy with this id uses CTR mode, and sufficient in GCM mode (`GracePeriod.RestoredByPrevIff4`).
- The round-robin counter of flows without a profile is a signed 32-bit integer. Every new flow gets an existing WAN
  exactly until the counter stands at its minimum and the number of WANs does not divide 2^31; that flow then never
  gets one (`FlowTable.PairAnswerInRange`, `FlowTable.PairKeepsRange`; `FlowTable.NextWanNegative`).

## Model

| member | source | states |
|---|---|---|
| InternetChecksum.FoldClosedForm | src/crypto/packet_crypto.c:376-378 | Folding terminates in the representative of the sum modulo 65535 in 1..65535, and in 0 for 0 |
| InternetChecksum.FoldKeepsValue | src/crypto/packet_crypto.c:376-378 | Folding keeps the value modulo 65535, and only 0 folds to 0 |
| InternetChecksum.WordSumSet | src/crypto/packet_crypto.c:368-375 | Replacing an aligned 16-bit field changes the word sum by exactly the difference |
| InternetChecksum.StoredChecksumVerifies | src/crypto/packet_crypto.c:368-407 | Storing the complement of the folded sum in a zeroed field makes the whole fold to 0xFFFF, with any pseudo-header |
| InternetChecksum.ChecksumFieldVerifies | src/crypto/packet_crypto.c:368-379 | The same for a header without pseudo-header |
| InternetChecksum.FieldVerifiesIff | src/core/bridge_mac.c:286-297 | Exactly which field values verify, with any pseudo-header: the stored checksum, or 0xFFFF in place of a stored 0 |
| InternetChecksum.VerifiesIff | src/core/bridge_mac.c:286-297 | The same for a header without pseudo-header |
| InternetChecksum.HeaderSum | src/crypto/packet_crypto.c:369-375 | The loop computes the word sum, odd lengths included, within 32 bits |
| InternetChecksum.FoldCarries | src/crypto/packet_crypto.c:376-378 | The carry loop terminates and computes the fold within 32 bits |
| InternetChecksum.CalcIpChecksum | src/crypto/packet_crypto.c:368-379 | The function returns the complement of the folded word sum |
| InternetChecksum.HeaderChecksumOk | src/core/bridge_mac.c:286-297 | The receive verifier accepts exactly the headers whose folded sum is 0xFFFF |
| TransportChecksum.RepairedTcpVerifies | src/crypto/crypto_layer3.c:219-231 | After the repair every TCP segment of at least 20 bytes folds to 0xFFFF with its pseudo-header |
| TransportChecksum.RepairedUdpVerifies | src/crypto/crypto_layer3.c:232-243 | After the repair every UDP datagram does so over the bytes its length field covers |
| TransportChecksum.RepairKeeps | src/crypto/crypto_layer3.c:219-245 | The repair changes nothing but the checksum field |
| TransportChecksum.RepairedIff | src/crypto/crypto_layer3.c:219-245 | The repair changes nothing exactly when the checksum field, where there is one, holds what the sum gives |
| TransportChecksum.TcpVerifiesIff | src/crypto/packet_crypto.c:381-407 | A TCP segment verifies exactly when it holds that checksum, or 0xFFFF where the sum gives 0 |
| TransportChecksum.UdpVerifiesIff | src/crypto/packet_crypto.c:409-438 | The same for UDP over the covered bytes; a datagram without checksum is kept only if the sum gives 0 |
| TransportChecksum.TcpSegmentSum | src/crypto/packet_crypto.c:391-403 | The TCP loop sums the segment with its checksum field counted as zero |
| TransportChecksum.UdpSum | src/crypto/packet_crypto.c:409-430 | The UDP sum covers the announced length, at least 8 and at most the bytes present |
| TransportChecksum.StoreComplement | src/crypto/crypto_layer3.c:224-230 | The field is overwritten with the complement of the folded sum, nothing else changes |
| TransportChecksum.RepairInPlace | src/crypto/crypto_layer3.c:219-245 | The in-place repair writes exactly the repaired segment and nothing else |
| Ipv4.EthIpv4Offset | src/crypto/crypto_layer4.c:70-89 | An IPv4 offset is 14, 18 or 22 and directly behind an 0x0800 EtherType |
| Ipv4.TransportHdrSize | src/crypto/crypto_layer4.c:28-44 | A recognised transport header has 8 to 60 bytes and is complete |
| Ipv4.PatchVerifies | src/core/fragment.c:43-51 | The receive verifier accepts every patched header |
| Ipv4.PatchAnnounces | src/core/fragment.c:43-51 | A patched header verifies, announces the new length, and keeps every other byte |
| Ipv4.PatchKeeps | src/core/fragment.c:43-51 | A patch changes only total length and checksum |
| Ipv4.PatchAbsorbs | src/core/fragment.c:43-51 | Of two patches only the second leaves a trace |
| Ipv4.PatchAgree | src/crypto/crypto_layer3.c:28-36 | The old length and checksum do not influence the result of a patch |
| Ipv4.PatchFixpoint | src/core/fragment.c:43-51 | A patch changes nothing exactly on canonical headers |
| Ipv4.VerifiesVersusCanonical | src/core/bridge_mac.c:286-297 | A header verifies exactly when it is canonical for its own length or holds 0xFFFF where the sum gives 0 |
| Ipv4.PatchInPlace | src/crypto/crypto_layer4.c:91-101 | The in-place patch writes exactly the patched header |
| PacketCrypto.GenerateNonce | src/crypto/packet_crypto.c:319-343 | Nonces have the configured size and a clear top bit |
| PacketCrypto.NonceDistinct | src/crypto/packet_crypto.c:319-343 | From four bytes on, different counter values give different nonces, whatever the salt |
| PacketCrypto.SealLength | src/crypto/packet_crypto.c:194-263 | Sealing adds the tag length and nothing else |
| PacketCrypto.OpenSeal | src/crypto/crypto_layer3.c:172-209 | What was sealed with the current slot is opened again, in CTR mode if the plaintext is believed |
| PacketCrypto.OpenRejects | src/crypto/crypto_layer3.c:189-208 | With three equal slots and a backup, a plaintext that is not believed is rejected by the whole trial loop |
| PacketCrypto.OpenShrinks | src/crypto/crypto_layer4.c:170-248 | Opening removes exactly the tag length |
| PacketCrypto.TrySlotsInPlace | src/crypto/crypto_layer3.c:181-247 | The trial loop over the slots, with backup and restore, in place on the packet |
| PacketCrypto.OpenInPlace | src/crypto/crypto_layer3.c:166-248 | Opening in place: the plaintext on success, the output of the last attempt on failure, the rest untouched |
| Tunnel.WrapInPlace | src/crypto/crypto_layer4.c:128-167 | Moving the sealed payload up, writing the tunnel header and patching give exactly the wrapped packet |
| Tunnel.OpenMovePatch | src/crypto/crypto_layer4.c:355-409 | Opening, moving the plaintext down over the tunnel and patching give exactly the unwrapped packet |
| Tunnel.OpenAndMove | src/crypto/crypto_layer4.c:209-241 | Opening in place and moving the plaintext down over the tunnel header |
| Tunnel.PatchMovedHeader | src/crypto/crypto_layer4.c:91-101 | The header patch after the plaintext has been moved down |
| Tunnel.PatchBuiltHeader | src/crypto/crypto_layer4.c:313-321 | The header patch of a freshly built fragment |
| Tunnel.Parts | src/crypto/crypto_layer4.c:170-205 | At the offsets the receiver computes, a wrapped packet holds the parts the sender wrote |
| Layer4.Locate | src/crypto/crypto_layer4.c:103-125 | A transport part is located only behind an IPv4 header of 20 to 60 bytes carrying TCP or UDP |
| Layer4.EncryptForm | src/crypto/crypto_layer4.c:103-168 | What is on the wire, part by part, behind a header that still announces its own layout |
| Layer4.DecryptOfEncrypt | src/crypto/crypto_layer4.c:170-248 | What decryption makes of it under any context: the packet when the plaintext comes out, and never anything longer |
| Layer4.PacketRoundTrip | src/crypto/crypto_layer4.c:103-248 | Decrypting an encrypted packet gives it back with total length and header checksum recomputed, VLAN tags included |
| Layer4.NormalizedIff | src/crypto/crypto_layer4.c:91-101 | That is the packet itself exactly when it is unpadded and canonical |
| Layer4.EncryptedHeader | src/crypto/crypto_layer4.c:103-168 | An encrypted packet is a valid IPv4 packet of its own length with the original addresses and ports |
| Layer4.EncryptedShape | src/crypto/crypto_layer4.c:103-168 | Policy id and magic stand where the receiver looks for them, and the length grows by the overhead |
| Layer4.FragmentRoundTrip | src/crypto/crypto_layer4.c:262-409 | Decrypting an encrypted fragment gives back the plaintext behind the ports, the packet id and the index |
| Layer4.FragmentHeader | src/crypto/crypto_layer4.c:262-324 | A fragment is a valid IPv4 packet of its own length with the original addresses and ports |
| Layer4.NoGrowth | src/crypto/crypto_layer4.c:170-248 | Decryption never makes a packet longer |
| Layer4.SettingsUsed | src/crypto/crypto_layer4.c:170-248 | Decryption depends on mode and nonce size only |
| Layer4.EncryptInPlace | src/crypto/crypto_layer4.c:103-168 | The in-place code computes the specified encryption, error returns included |
| Layer4.DecryptInPlace | src/crypto/crypto_layer4.c:170-248 | The in-place code computes the specified decryption, and what it leaves behind on failure |
| Layer4.EncryptFragmentInto | src/crypto/crypto_layer4.c:262-324 | The copies into the output buffer build the specified fragment, or -1 |
| Layer4.DecryptFragmentInPlace | src/crypto/crypto_layer4.c:326-409 | The in-place code computes the specified fragment decryption and reads its tag |
| Layer3.PacketRoundTrip | src/crypto/crypto_layer3.c:79-249 | A packet whose protocol is not 0x5C and, in CTR mode, whose ports are plausible is restored up to its checksums |
| Layer3.PacketRoundTripIff | src/crypto/crypto_layer3.c:79-249 | With equal key slots and a payload that fits the backup, exactly those packets are restored |
| Layer3.DecryptOfEncrypt | src/crypto/crypto_layer3.c:133-249 | What decryption makes of an encrypted packet under any context and mode with the same nonce size and fake protocol |
| Layer3.HeaderRoundTrip | src/crypto/crypto_layer3.c:122-128 | The fake protocol and the 16-bit length arithmetic of both sides cancel out |
| Layer3.RestoredVerifies | src/crypto/crypto_layer3.c:212-245 | A restored packet passes the receiver's IP, TCP and UDP checksum tests |
| Layer3.RestoredIff | src/crypto/crypto_layer3.c:212-245 | It is the original exactly when the header is canonical and the transport checksum field, where there is one, holds what the sum gives |
| Layer3.EncryptedHeader | src/crypto/crypto_layer3.c:122-130 | The header of an encrypted packet verifies, announces old length plus overhead, and carries the fake protocol |
| Layer3.EncryptedShape | src/crypto/crypto_layer3.c:105-130 | Policy id and fake protocol stand where the receiver looks for them |
| Layer3.FragmentRoundTrip | src/crypto/crypto_layer3.c:251-389 | Decrypting an encrypted fragment gives back plaintext, packet id and index; the protocol byte stays fake |
| Layer3.FragmentHeader | src/crypto/crypto_layer3.c:251-308 | A fragment is a valid IPv4 packet of its own length |
| Layer3.LeftPassesOn | src/crypto/crypto_layer3.c:153-164 | What a failed decryption leaves passes through any further one, unless the original protocol is the fake one |
| Layer3.SettingsUsed | src/crypto/crypto_layer3.c:133-249 | Decryption depends on mode, nonce size and fake protocol only |
| Layer3.EncryptInPlace | src/crypto/crypto_layer3.c:79-131 | The in-place code computes the specified encryption, pass-through and errors included |
| Layer3.DecryptInPlace | src/crypto/crypto_layer3.c:133-249 | The in-place code computes the specified decryption with checksum repair, and what it leaves behind on failure |
| Layer3.OpenAndRebuild | src/crypto/crypto_layer3.c:157-248 | The part behind the tests: trial loop, move, header patch and checksum repair together |
| Layer3.PatchAndRepair | src/crypto/crypto_layer3.c:212-245 | The header patch and the checksum repair of a decrypted packet |
| Layer3.NoGrowth | src/crypto/crypto_layer3.c:133-249 | Decryption never makes a packet longer |
| Layer3.EncryptFragmentInto | src/crypto/crypto_layer3.c:251-308 | The copies into the output buffer build the specified fragment, or -1 |
| Layer3.DecryptFragmentInPlace | src/crypto/crypto_layer3.c:310-389 | The in-place code computes the specified fragment decryption and reads its tag |
| Layer2.PacketRoundTripIff | src/crypto/crypto_layer2.c:65-169 | Exactly when a whole packet survives encryption and decryption |
| Layer2.FragmentRoundTrip | src/crypto/crypto_layer2.c:183-309 | Decrypting an encrypted fragment gives back the plaintext behind the marked Ethernet header, the id and the index |
| Layer2.OpenCurrentSeal | src/crypto/crypto_layer2.c:131-156 | Whole packets open with the current slot only, in CTR mode if the IP header is plausible |
| Layer2.EncryptInPlace | src/crypto/crypto_layer2.c:65-106 | The in-place code computes the specified encryption |
| Layer2.DecryptInPlace | src/crypto/crypto_layer2.c:108-169 | The in-place code computes the specified decryption, and what it leaves behind on failure |
| Layer2.MarkAndFill | src/crypto/crypto_layer2.c:88-105 | Moving the payload up and writing marker, policy id and nonce give exactly the wire form |
| Layer2.PlaceIpv4 | src/crypto/crypto_layer2.c:158-168 | The EtherType is restored and the IP packet, stripped of an old-format EtherType, moved behind it |
| Layer2.EncryptFragmentInto | src/crypto/crypto_layer2.c:183-238 | The copies into the output buffer build the specified fragment, or -1 |
| Layer2.DecryptFragmentInPlace | src/crypto/crypto_layer2.c:240-309 | The in-place code computes the specified fragment decryption and reads its tag |
| Fragmentation.SplitRoundTrip | src/core/fragment.c:119-619 | Split, encrypt, decrypt and reassemble returns the packet with length and checksum renewed if it is deliverable and the second half comes within 200 ms, and, with no other half of that id pending, only then; the second half never overruns the output buffer |
| Fragmentation.RenewedIff | src/core/fragment.c:43-51 | That is the packet itself exactly when it is unpadded and canonical |
| Fragmentation.JoinRight | src/core/fragment.c:216-246 | The halves of a packet join to the packet, whatever length the fragments announced |
| Fragmentation.JoinWrong | src/core/fragment.c:186-246 | A wrong guess of the protocol, or stale buffer bytes between the halves, never gives the right packet |
| Fragmentation.HalfRoundTrip | src/core/fragment.c:160-167 | One half, through the layer's fragment encryption and decryption |
| Fragmentation.HalfParts | src/core/fragment.c:354-363 | What reassembly reads from a decrypted half, at each layer |
| Fragmentation.HeldJoinedLen | src/core/fragment.c:401-424 | All of the first half goes into the joined packet; more exactly when the header is not recognised and the half too short |
| Fragmentation.SplitHalves | src/core/fragment.c:253-322 | What the receiver holds after decrypting the two fragments |
| Fragmentation.CutPoint | src/core/fragment.c:272-289 | The second half is never empty and never starts inside the IP header |
| Fragmentation.FirstCall | src/core/fragment.c:65-81 | A first half is stored exactly when it fits 1600 bytes (and, at layer 2, is IPv4), with exactly its own data |
| Fragmentation.SecondCall | src/core/fragment.c:201-248 | A second half completes a packet exactly under its id, in time and within the size limits |
| Fragmentation.RoomIff | src/core/fragment.c:209-245 | The size of a joined packet, and exactly when it fits the 4096 bytes of the output buffer |
| Fragmentation.FragmentsFit | src/core/forwarder.c:1788-1800 | It does whenever the second half is within the size of an encrypted fragment |
| Fragmentation.TailFollows | src/core/fragment.c:359-360 | A second half of at least 20 bytes leaves no room for invented bytes |
| FragTable.PktIds.Next | src/core/fragment.c:12-16 | Packet ids are the low 16 bits of a counter of at least 32 bits |
| FragTable.CounterWrap | src/core/fragment.c:12-16 | The wrap of the counter does not disturb the ids, whatever its width |
| FragTable.SplitAndEncrypt | src/core/fragment.c:119-169 | The three split functions build exactly the specified fragments, and draw one id per packet that has a cut point |
| FragTable.EncryptHalfInto | src/core/fragment.c:486-493 | One half into its output buffer |
| FragTable.Table.Gc | src/core/fragment.c:28-36 | Garbage collection invalidates exactly the slots older than 200 ms |
| FragTable.Table.TryReassemble | src/core/fragment.c:171-251 | One call changes exactly the slot of its id and returns -1, 0 or the joined packet, as specified |
| FragTable.JoinHalves | src/core/fragment.c:216-243 | The copies at a moving offset build exactly the joined packet |
| FragHistory.JoinsPending | src/core/fragment.c:182-248 | In every run, a second half completes a packet exactly when the latest unclaimed first half in its slot has its id, came at most 200 ms earlier, and the sizes fit; it is joined from that half |
| FragHistory.PendingIff | src/core/fragment.c:65-81 | Which first half that is, without recursion |
| FragHistory.SlotInvariant | src/core/fragment.c:28-36 | A slot is valid only with the pending first half and loses it unclaimed only after it has expired |
| FragHistory.StepCases | src/core/fragment.c:186-250 | What one fragment or one garbage collection does to a slot |
| FragHistory.ConsumedOnce | src/core/fragment.c:246-247 | No first half is consumed twice |
| FragHistory.OnlySecondsComplete | src/core/fragment.c:186-250 | Only first halves are stored and only second halves complete a packet |
| FragHistory.JoinedDetermined | src/core/fragment.c:216-243 | What is joined does not depend on stale buffer contents once the transport header is recognised |
| FragHistory.ConsecutiveSlots | src/core/fragment.c:182-183 | Any 4096 consecutive ids have different slots, across the 16-bit wrap too |
| FragHistory.KeptThroughBurst | src/core/fragment.c:182-183 | A first half stays pending while only ids fewer than 4096 counter values away are stored |
| FragHistory.TransferDelivers | src/core/fragment.c:119-251 | Whatever else arrives in between, both fragments of a deliverable packet give the packet |
| SizeBounds.WholeFits | inc/core/fragment.h:45-62 | A packet that is not split has at most 1500 bytes after encryption, at every layer and in both modes |
| SizeBounds.SplitFits | src/core/fragment.c:119-169 | Splitting a packet of at most 2783 bytes succeeds and both fragments have at most 1500 bytes |
| SizeBounds.SplitBoundTight | src/core/fragment.c:445-495 | One byte more can make the first layer-4 fragment one byte too long |
| SizeBounds.SplitDelivers | inc/core/fragment.h:45-62 | Packets sent to splitting, up to the bound, are deliverable except for IP version and protocol guess |
| SizeBounds.HalfLength | src/crypto/crypto_layer4.c:262-324 | The exact length of a fragment at each layer, and when it can be built |
| SizeBounds.PlainSizes | src/core/fragment.c:144-167 | The first half holds the transport header and half of the rest, rounded down |
| Dispatch.LookupPolicyIndex | src/crypto/crypto_dispatch.c:11-35 | The index entry if in range, otherwise the first policy with that action and wire id |
| Dispatch.LooksUp | src/crypto/crypto_dispatch.c:11-35 | Index and scan agree: the wire id of a policy leads to that policy |
| Dispatch.ExtractPolicyId | src/crypto/crypto_dispatch.c:37-126 | The id byte of the first policy whose nonce size locates its own id behind the headers |
| Dispatch.AutoDecrypt | src/crypto/crypto_dispatch.c:128-241 | The layer-3 and layer-4 dispatch in place: default context without policies, the previous policy set on what a failed attempt left, and the settings the thread is left with |
| Dispatch.BaseDecryptInPlace | src/crypto/packet_crypto.c:460-475 | Decryption at the configured layer, and the error return for any other |
| Dispatch.TryInPlace | src/crypto/crypto_dispatch.c:211-221 | One attempt with a policy, successful exactly when the packet became shorter |
| Dispatch.L4RoundTrip | src/crypto/crypto_dispatch.c:183-241 | With distinct wire ids and one nonce size, a packet encrypted at layer 4 by a ready policy is resolved to that policy and restored |
| Dispatch.L3RoundTrip | src/crypto/crypto_dispatch.c:147-181 | The same at layer 3, for the packets layer 3 restores |
| Dispatch.Resolves | src/crypto/crypto_dispatch.c:151-163 | That policy is tried exactly when it is ready, and nothing else is |
| Dispatch.Extracts | src/crypto/crypto_dispatch.c:63-123 | The scan finds the id that was written |
| Dispatch.OnlyTheNamedPolicy | src/crypto/crypto_dispatch.c:147-241 | Whatever arrives, only a ready policy of that layer with the id on the wire decrypts it |
| GracePeriod.ExtractsListed | src/crypto/crypto_dispatch.c:63-75 | With one nonce size, an id is found on the wire exactly when the configuration lists it |
| GracePeriod.TriedIff | src/crypto/crypto_dispatch.c:151-163 | Which policy of a set with distinct ids is tried, and when none is |
| GracePeriod.PrevRestores3 | src/crypto/crypto_dispatch.c:165-179 | An attempt of the previous set on the untouched packet restores it |
| GracePeriod.CurrentDecides3 | src/crypto/crypto_dispatch.c:155-180 | A ready current policy decides alone, because a failed attempt has put the protocol byte back |
| GracePeriod.RestoredByPrevIff3 | src/crypto/crypto_dispatch.c:147-181 | The previous set restores its layer-3 packets exactly when the current configuration lists the wire id without a context for it |
| GracePeriod.UnchangedRestores3 | src/crypto/crypto_dispatch.c:155-163 | A policy that has kept its key restores what was encrypted before |
| GracePeriod.Attempt4 | src/crypto/crypto_dispatch.c:211-221 | One attempt at layer 4 restores under the same key and mode, and in CTR mode takes the packet under any key |
| GracePeriod.CurrentFirst4 | src/crypto/crypto_dispatch.c:207-221 | A ready current policy comes first at layer 4 |
| GracePeriod.RestoredByPrevIff4 | src/crypto/crypto_dispatch.c:183-241 | The previous set restores its layer-4 packets if, and in CTR mode only if, the current configuration lists the wire id without a context for it |
| FragmentDispatch.IsFragment | src/core/fragment.c:83-117 | The recognisers of all three layers: head tests, scan over the policies, and the tag |
| FragmentDispatch.OnWire | src/core/fragment.c:83-117 | What a fragment looks like on the wire: marker, policy id, packet id and index stand where the receiver looks |
| FragmentDispatch.Recognises | src/core/fragment.c:497-535 | A fragment is recognised, with its packet id and index |
| FragmentDispatch.Resolves | src/core/forwarder.c:872-963 | Index and id lead to the settings and the context of the policy that wrote it |
| FragmentDispatch.FragmentReceived | src/core/forwarder.c:1768-1789 | Recogniser, index and context together give back the half that was encrypted |
| FragmentDispatch.PacketReceived | src/core/forwarder.c:1768-1805 | End to end, both fragments of a deliverable packet give the packet |
| FragmentDispatch.WholeIsNoFragment | src/core/fragment.c:83-117 | A whole packet is never taken for a fragment, except for a first sealed byte 0x5B at layer 2 and protocol 0x5C at layer 3 |
| PolicySelect.SelectPolicy | src/db/config.c:330-362 | The two passes compute the specified selection |
| PolicySelect.SelectIff | src/db/config.c:340-360 | The selected policy is the first protocol-specific entry matching either way, else the first any-protocol one |
| PolicySelect.SelectSymmetric | src/db/config.c:354-356 | Both directions of a flow get the same policy |
| PolicySelect.FirstFitIff | src/db/config.c:341-359 | One pass finds the first fitting entry, and None exactly when none fits |
| PolicySelect.SelectProfileForLocal | src/db/config.c:210-224 | The first enabled profile that lists the LAN interface |
| Merge.MergePreservesSelection | src/db/db_runtime.c:186-248 | Every packet gets, in every profile of the merged source, the policy the source gave it, equal apart from its wire id |
| Merge.MergeKeepsEarlier | src/db/db_runtime.c:186-248 | A merge leaves earlier profiles, policies and selections as they were, ids distinct and entries in range |
| Merge.MergeAllPreserves | src/db/db_runtime.c:250-265 | Over the whole merge loop every source keeps its meaning and wire ids are pairwise distinct in 1..255 |
| Merge.AlwaysAnId | src/db/db_runtime.c:169-180 | A free wire id exists whenever there is room for another policy |
| Merge.PoliciesKept | src/db/db_runtime.c:158-184 | Added policies follow in order, equal apart from their ids, and ids stay distinct |
| Merge.WireIdFor | src/db/db_runtime.c:168-180 | The id given to a policy is in 1..255 and unused |
| Merge.LowestFree | src/db/db_runtime.c:170-176 | The replacement id is the lowest unused one |
| Merge.InterfacesKept | src/db/db_runtime.c:129-147 | Every interface is found under its name at its new position, and no name appears twice |
| MergeInPlace.Destination.AppendLocalUnique | src/db/db_runtime.c:129-137 | The position of the interface, appended if its name is new, -1 when full |
| MergeInPlace.Destination.AppendWanUnique | src/db/db_runtime.c:139-147 | The same for WAN interfaces |
| MergeInPlace.CollectUsedWireIds | src/db/db_runtime.c:149-156 | The table marks exactly the ids in use |
| MergeInPlace.FindByName | src/db/db_runtime.c:113-127 | The position of the name, or -1 |
| MergeInPlace.PickWireId | src/db/db_runtime.c:166-180 | Own id if valid and free, otherwise the lowest free one, otherwise -1 |
| MergeInPlace.Destination.AppendPolicyUnique | src/db/db_runtime.c:158-184 | Appends the policy with its wire id, or changes nothing and returns -1 |
| MergeInPlace.Destination.AppendLocals | src/db/db_runtime.c:194-198 | The LAN interfaces of a source in turn, with their index map |
| MergeInPlace.Destination.AppendWans | src/db/db_runtime.c:199-203 | The WAN interfaces of a source in turn, with their index map |
| MergeInPlace.Destination.AppendPolicies | src/db/db_runtime.c:204-208 | The policies of a source in turn; their index map is one block |
| MergeInPlace.Remap | src/db/db_runtime.c:238-245 | Entries out of range are skipped, the rest mapped in order until the destination is full |
| MergeInPlace.RemapWeighted | src/db/db_runtime.c:228-237 | The same for WAN entries together with their weights |
| MergeInPlace.Destination.MergeFrom | src/db/db_runtime.c:186-248 | The in-place merge of one source computes the specified configuration |
| MergeInPlace.BuildMerged | src/db/db_runtime.c:250-265 | The merge loop, with its error return |
| MergePorts.MergePreservesPort | src/db/db_runtime.c:210-227 | A LAN port new to the destination keeps the policies of its packets |
| MergePorts.MergeKeepsPort | src/db/db_runtime.c:210-227 | A source without the port does not change them |
| MergePorts.PortKeepsPolicies | src/db/db_runtime.c:250-265 | A LAN port named by one source only keeps its policies through the whole merge |
| ReloadGate.StepKeepsInv | src/core/forwarder.c:83-96 | Every step of every thread and of the reloader keeps the gate's invariant |
| ReloadGate.Exclusion | src/core/forwarder.c:2495-2522 | In every interleaving of any number of threads nobody is inside while the runtime is rewritten, whoever is inside sees one complete reload from enter to leave, and the counter counts exactly who is inside or about to back out |
| ReloadGate.PinsCurrent | src/core/forwarder.c:2509-2520 | Although threads inside write the pins and the collector sweeps them without passing the gate, a thread inside finds only pins made against the policies it sees |
| ReloadGate.ReloadInstallsTarget | src/core/forwarder.c:2499-2522 | A finished reload has installed exactly its target |
| ReloadGate.DrainStep | src/core/forwarder.c:83-92 | While the flag is set every step of a packet thread but spinning lowers the rank, the collector raises nothing, and each thread has at most one failed attempt left |
| ReloadGate.DrainProgress | src/core/forwarder.c:2496-2497 | While the counter is not zero some thread can make such a step |
| ReloadGate.DrainTerminates | src/core/forwarder.c:2495-2497 | However often threads spin and the collector sweeps, draining takes at most Rank steps of progress in any order and ends with the counter at zero |
| PolicyRuntime.Runtime.Rebuild | src/core/forwarder.c:272-337 | A rebuild gives every ready slot the context derived from its own policy, also when copied from another old slot, and the index exactly the lowest ready policy per action and id |
| PolicyRuntime.Runtime.PrepareSlot | src/core/forwarder.c:290-321 | A slot is ready exactly when its policy is usable and a context could be reused or created |
| PolicyRuntime.Runtime.IndexSlot | src/core/forwarder.c:322-326 | Entering a slot keeps the index at the lowest ready policy |
| PolicyRuntime.Runtime.ClearAll | src/core/forwarder.c:284-288 | No slot is ready and every index entry is -1 |
| PolicyRuntime.IsUsable | src/core/forwarder.c:292-299 | Usable are exactly the policies that do not bypass and have a nonzero key |
| PolicyRuntime.FindSame | src/core/forwarder.c:301-311 | Finds a ready old slot with the same policy in every field, if there is one |
| PolicyRuntime.IndexEntry | src/core/forwarder.c:322-326 | The entry is ready, matches action and id, and no lower slot does; -1 exactly when none does |
| PolicyRuntime.Forwarder.Init | src/core/forwarder.c:2293-2346 | After a successful start the runtime belongs to the configuration; a failed one leaves the contexts as they were, ready for the next |
| PolicyRuntime.Forwarder.Reload | src/core/forwarder.c:2480-2526 | Every reload keeps that, and rebuilds exactly when crypto is enabled and has changed |
| PolicyRuntime.UnchangedPolicies | src/core/forwarder.c:241-259 | If nothing relevant changed, the policy lists are equal |
| PolicyRuntime.MatchesCoherent | src/core/forwarder.c:290-336 | Such a runtime with distinct wire ids is what dispatch of packets and fragments relies on |
| TcpPins.PinTable.Set | src/core/forwarder.c:497-537 | Pins the connection, either direction, unless crypto is off, the index is unacceptable or memory is out |
| TcpPins.PinTable.Lookup | src/core/forwarder.c:563-601 | Returns and refreshes a usable pin, removes an unusable one |
| TcpPins.PinTable.Remove | src/core/forwarder.c:539-561 | Removes exactly the pin of the connection |
| TcpPins.PinTable.Unlink | src/core/forwarder.c:550-559 | Unlinks the node with the key, if there is one |
| TcpPins.PinTable.SweepAll | src/core/forwarder.c:481-494 | The walk over all chains keeps exactly the pins that pass |
| TcpPins.LastPin | src/core/forwarder.c:497-537 | The reference: the last event that pins the connection |
| TcpPins.PinTable.Gc | src/core/forwarder.c:475-495 | Removes exactly the pins idle for more than 120 s |
| TcpPins.PinTable.ClearAll | src/core/forwarder.c:465-473 | Removes all pins |
| TcpPins.PinInvariant | src/core/forwarder.c:2509-2520 | In every run a pin is the last one asked for, made against the policy list in force while crypto is on |
| TcpPins.LookupReturnsLastPin | src/core/forwarder.c:563-601 | A lookup returns only the policy last pinned for the connection in either direction, against an identical list, in range, and ready if it encrypts |
| FlowKeys.NormalizedIff | src/core/flow_table.c:11-27 | Two tuples share a key exactly when they are the same connection, in either direction |
| FlowKeys.NormalizedIpsIff | src/core/flow_table.c:29-40 | The same for address pairs |
| FlowKeys.NtohlInjective | src/core/flow_table.c:16-17 | Comparing in host order does not confuse addresses |
| Chains.SetBucket | src/core/flow_table.c:154-173 | Updating a node or linking a new one in front sets exactly one key of the map the table stands for |
| Chains.DropBucket | src/core/forwarder.c:550-559 | Unlinking a node removes exactly its key |
| Chains.KeepAll | src/core/flow_table.c:424-439 | Sweeping every chain filters the map |
| Chains.Sweep | src/core/flow_table.c:427-436 | The unlinking walk keeps exactly the nodes that pass, in order |
| Chains.Find | src/core/flow_table.c:129-152 | The walk along a chain finds the first node with the key |
| FlowTable.KeysIff | src/core/flow_table.c:120-132 | Both directions of a flow use one entry, and no two flows share one |
| FlowTable.NextWanInRange | src/core/flow_table.c:105-114 | A draw is an existing WAN exactly unless the counter stands at its minimum and the count does not divide 2^31 |
| FlowTable.NextWanNegative | src/core/flow_table.c:105-114 | Where it is not: -2 with three WANs |
| FlowTable.PairKeepsRange | src/core/flow_table.c:129-150 | A flow without a profile stays on existing WANs, or off them for good |
| FlowTable.PairAnswerInRange | src/core/flow_table.c:116-178 | Packet and table stay on existing WANs exactly until such a draw |
| FlowTable.AnswerAllowed | src/core/flow_table.c:232-331 | With a profile the WAN is always an allowed one if allocation succeeds, and no other flow is touched |
| FlowTable.Table.GetWan | src/core/flow_table.c:116-178 | The flow's entry is created or moved on as specified, with the WAN returned and the counter left behind |
| FlowTable.Table.Store | src/core/flow_table.c:160-173 | Setting an entry sets exactly one key of the map |
| FlowTable.Table.Search | src/core/flow_table.c:127-152 | Finds the entry of a key exactly when there is one |
| FlowTable.Table.DrawWan | src/core/flow_table.c:103-114 | The next WAN in turn from the signed 32-bit counter |
| FlowTable.ProfileStep | src/core/flow_table.c:259-286 | A known flow of a profile always ends on an allowed WAN |
| FlowTable.ProfileFirst | src/core/flow_table.c:313-324 | So does a new one |
| FlowTable.Table.ChooseWan | src/core/flow_table.c:243-331 | The same with a profile |
| FlowTable.Table.GetWanProfile | src/core/flow_table.c:232-331 | The entry point with no, one or several allowed WANs: WAN, table and counter in each case |
| FlowTable.Table.Gc | src/core/flow_table.c:421-440 | Removes exactly the flows idle for more than 60 s |
| FlowTable.StaysWithinWindow | src/core/flow_table.c:267-286 | A flow stays on its WAN until its byte window is full |
| FlowTable.RotationFollowsSequence | src/core/flow_table.c:277-280 | Full windows move a flow along the weighted sequence, one slot at a time |
| WeightedRoundRobin.WeightsSumPositive | src/core/flow_table.c:188-197 | The loop sums the positive weights |
| WeightedRoundRobin.SlotToPosition | src/core/flow_table.c:199-214 | The loop finds the position whose share contains the slot |
| WeightedRoundRobin.OwnerIff | src/core/flow_table.c:204-212 | Which position that is: the shares lie one after the other |
| WeightedRoundRobin.Scheduler.PickPerPacket | src/core/flow_table.c:216-230 | One pick, 0 without any allowed WAN, and what it does to the sequence number |
| WeightedRoundRobin.ExactlyFair | src/core/flow_table.c:216-230 | Over any round of consecutive picks each position is chosen exactly as often as its weight says, or once without positive weights |
| ArpCache.Cache.Lookup | src/core/wan_arp.c:62-77 | Finds exactly the addresses of the map with their MACs, never address 0 |
| ArpCache.Cache.Insert | src/core/wan_arp.c:79-95 | Sets the address in the map, unless it is 0 or new to a full table |
| ArpCache.LastInsertionWins | src/core/wan_arp.c:79-95 | Over any sequence of insertions an accepted address is never lost and has its last MAC |
| ArpCache.NotStored | src/core/wan_arp.c:66-74 | An empty slot in the probe sequence proves absence |
| ArpCache.Placed | src/core/wan_arp.c:84-93 | Filling that slot keeps every stored address reachable and single |
| ArpCache.FullIff | src/core/wan_arp.c:84-93 | The map has 2048 entries exactly when no slot is empty |
| FramePipeline.WorkerRing.Enqueue | src/core/forwarder.c:1439-1446 | Adds the job at the end unless 4095 are queued |
| FramePipeline.WorkerRing.Dequeue | src/core/forwarder.c:2003-2009 | Removes the oldest job |
| FramePipeline.StepKeepsInv | src/core/forwarder.c:1423-1452 | Every step of kernel, receive threads and workers keeps every frame in exactly one place |
| FramePipeline.KernelReceiveKeeps | src/core/interface.c:1326-1333 | A received packet moves one free frame to the receive ring |
| FramePipeline.PeekKeeps | src/core/interface.c:1311-1334 | The receive thread takes over frames without losing or repeating one |
| FramePipeline.HandleKeeps | src/core/forwarder.c:1436-1451 | The next frame is queued, or released when the ring is full |
| FramePipeline.TakeKeeps | src/core/forwarder.c:2003-2009 | A worker takes over exactly the oldest job |
| WorkerPaths.RunJob | src/core/forwarder.c:2017-2272 | The body of the worker with all its branches and its two jumps does exactly what is specified |
| WorkerPaths.EveryPath | src/core/forwarder.c:2017-2272 | On every way through it the frame is released once, after everything that reads it and before the gate is left; each packet or fragment is counted as sent or dropped once; and nothing leaves in clear when policies exist and none matches |
| FramePipeline.FinishReleases | src/core/forwarder.c:2265-2270 | Whatever way the worker took, finishing a job is one release |
| FramePipeline.FinishKeeps | src/core/forwarder.c:2265-2270 | It finds room, and every frame stays in exactly one place |
| FramePipeline.ReserveSucceeds | src/core/interface.c:1345-1360 | Whoever holds a frame finds room for it in its fill ring |
| FramePipeline.Conservation | src/core/interface.c:1302-1361 | In every interleaving every frame is released as often as received, or once less while under way, and jobs leave the ring in FIFO order |
| FramePipeline.InitialInv | src/core/interface.c:539-545 | Initialisation puts every frame into its fill ring once |
| Limits.ZeroSumHeader | src/core/bridge_mac.c:286-297 | A header that verifies and is not reproduced |
| Limits.FakeFragment | src/crypto/crypto_layer3.c:150-151 | A packet of protocol 0x5C stays encrypted |
| Limits.PortsZero | src/crypto/crypto_layer3.c:206-207 | A TCP segment between ports 0 is lost in CTR mode |
| Limits.LeftInClear | src/crypto/crypto_layer3.c:91-93 | A TCP segment that is not encrypted |
| Limits.OldFormat | src/crypto/crypto_layer2.c:158-163 | A layer-2 packet that loses its first two bytes |
| Limits.UnknownProtocol | src/crypto/crypto_layer2.c:24-36 | A PIM packet is lost at layer 2 in CTR mode |
| Limits.MarkerByChance | src/crypto/crypto_layer2.c:120-122 | A whole layer-2 packet taken for a fragment |
| Limits.DatagramTakenForTcp | src/core/fragment.c:186-193 | A UDP datagram of 1480 bytes that is split, taken for TCP and lost |
| Limits.StaleBytes | src/core/fragment.c:406-421 | An ICMP packet whose halves would be joined around stale bytes |
| Limits.HeadersNotCounted | src/core/fragment.c:209-245 | Two halves the code accepts whose joined packet has 4170 bytes |
| Limits.NewKeyLosesPackets | src/crypto/crypto_dispatch.c:155-180 | A packet under the old key of a wire id is rejected during the grace period |

## Left out

- AES, HMAC and OpenSSL contexts are abstract functions; the cached-key fast path and the random salt are foreign calls.
- Null-pointer and uninitialised-context tests at the head of the functions: the model has no null pointers.
- Nonce sizes above 16: the nonce buffers of the code have 16 bytes, so `Settings.Valid` and `PolicySet.Valid` assume 1 to 16.
- Layer2.DecryptInPlace: in GCM mode with fewer than two decrypted bytes the code would read tag bytes behind them as an
  old EtherType, and compute a negative length if they are 08 00; the model does not strip anything then.
- Layer3.DecryptInPlace: packets longer than 65535 bytes are excluded; frames have at most 4096 bytes.
- Layer4.EncryptInPlace: requires that the announced IP header lies inside the packet (`HeadersComplete`); the code does
  not test it there and would compute a negative length, but the caller's flow parser has tested it. Layer-4 reassembly
  likewise relies on fragment decryption (`Readable`).
- FragTable.Table.TryReassemble: requires that what is joined fits the output buffer (`RoomToJoin`), because the code
  would write past its end; sizes that violate this, and sizes that cannot, are given above.
- FragTable.JoinHalves: requires the same of the halves it copies.
- The layer-2 branch of the automatic decryption, which tries every layer-2 policy in turn.
- The order in which the receiving thread asks the three layers about one packet: each layer's dispatch is modelled on
  its own.
- Reload gate: sequential consistency is assumed, while the code uses acquire and release; the shortcut of
  src/core/forwarder.c:2489-2493 that swaps the configuration pointer without pausing, and the branch of
  src/core/forwarder.c:2018 that skips the leave call for a job without a forwarder, are not part of the step system.
- Copies of the runtime for the grace period taken at start, and the grace clock: the previous policy set is an input of
  dispatch, present or not.
- Locks: each table operation is one step; chains are sequences of nodes, so pointer links and memory reuse are not modelled.
- Rings shared with the kernel are queues of frame tokens; sockets, poll, BPF maps, UMEM allocation, transmit frames and
  the completion ring are not modelled, nor is the receive path without crypto, whose ARP-miss branch releases a frame twice.
- compute_profile_weighted_wan_windows: the window sizes are inputs of the flow table.
- flow_table_add_bytes and the hash-based WAN choice of the configuration: not used by the forwarder's packet path.
- Loading from the database, validation, parsing, MAC learning and ARP persistence: input and output only.
- MergeInPlace.BuildMerged: takes the sources as loaded; loading failures, the final validation, and the settings derived
  from the first merged policy at the end are not part of it.
- Log output everywhere.
