# Router1 tunnel: a verified model

This project models the parts of the Router1 tunnel stack (the AmneziaWG tools and
the Android tunnel library) where a mistake is easy to make and hard to see, and
proves what they are for. `dafny verify dfyconfig.toml` checks all of it.

* **Keys from keys.** `X25519` is section 5 of RFC 7748 over the integers. The Java
  class (`Curve25519`, `JavaLimbs`, `JavaField`: ten 26-bit limbs, deferred swaps) and the embeddable C library (`WireguardKey`, `Fe16`: sixteen signed 16-bit
  limbs, swaps undone at once) are modelled limb by limb on `int32` and `int64`
  newtypes, so that a verified body cannot overflow, and both are proved to write
  the bytes of the specification; `Fiat32` does the same for the third ladder at the
  level of field elements.
* **Netlink.** `Netlink` is the attribute codec on bytes. `KernelDevice` is what the
  receiver does with a request. `SetDevice` is the loop that cuts one configuration
  into messages of limited size, `WireFormat` its octets and their effect spelled out,
  and `CoalescePeers` the loop that joins the pieces of a dump again.
* **Text.** `KeyText` states base64 and base16 for keys, `KeyCodec` and `HexCodec` are
  the constant-time codecs of C and Java. `ConfigFile`, `ConfigReader`,
  `ConfigRoundTrip` and `ConfigFixedPoint` are the configuration file, its reader and
  what showconf prints.
  `ConfigMeaning` spells out what every key and value means, also where showconf never
  prints the form.
  `AddressGrammar` and `Validators` are the value grammars of the highlighter and its
  scanners; `HighlightSpec` says line by line what highlighting means, `Highlighter` is
  the one-pass state machine, and `HighlightColours` says which name has which colour.
* **ELF.** `ElfCleaner` is the in-place loop over a dynamic section.
* **syncconf.** `SyncConf` is the sort-and-scan that decides which peers to remove.
* **Tunnels.** `GoBackend` is the Java backend together with the Go table of handles,
  `Failover` its failover logic, `Switchover` the thread where the two meet, and
  `AwgQuickBackend` the backend with compensating commands.

Where a loop or an object changes things in place the model is a method or a class,
proved against functions on values; the theorems are then about those functions.

Conventions. `x & (2^k - 1)` is the Euclidean remainder and an arithmetic `x >> k`
the floor of the quotient, which is what Dafny's `%` and `/` compute for a positive
divisor; other bitwise operations are defined bit by bit in `MachineInts` and
`Words`. The outside world (kernel replies, commands that fail, permissions, clocks,
name resolution, the order of a hash map, the result of qsort) enters as parameters
over which everything is quantified.

Where the code does less than its comments or its purpose suggest, the model follows
the code, and the exact condition is proved with an input that fails:

* A comment in `eval` says that two reductions take every 256-bit value below p; they
  do so exactly below 2^256 - 19 (`JavaField.TwoTrialsCanonical`). For each of the
  nineteen keys above, products lose carries (`JavaField.FoldedExactly`) and the first
  pass of the ladder goes astray (`JavaCurve25519.WidePublicKeys`). `eval` does not
  ignore the highest bit of a public key, as RFC 7748 does (`TopBitMatters`).
* `kernel_set_device` puts the attributes before the peers without looking at the
  buffer, so message one stays within it exactly if they fit; two long I strings do
  not (`SetDevice.FrontCanOverrun`).
* `coalesce_peers` fails exactly when an empty piece lies between a filled one and
  another of its key (`CoalescePeers.EmptyMiddleBreaks`).
* The test for two dots in a row in `is_valid_hostname` is never reached, so such names
  are accepted (`AddressGrammar.DoubleDotHost`).
* The Java key parsers accept some characters above 0xFF (`KeyCodec.WideLetter`,
  `HexCodec.WideHexDigit`).
* Two runtime peers with one key, which the kernel never reports, would make syncconf
  remove a peer that the file keeps (`SyncConf.FlaggedExactly`,
  `SyncConf.DoubleLosesShared`); the file's own entry then adds it again.
* With two pollers the failover cooldown can be defeated: a start keeps the history
  safe exactly if what was checked still holds (`Failover.Switcher.Schedule`), and from
  every state due for a switch a second poller can break it (`Failover.StaleCheck`).
* An interface left over from an earlier process is not taken down, so two can run with
  multiple tunnels off, exactly when `AwgQuickBackend.Backend.SetStateAlone` says
  (`AwgQuickBackend.TwoAtOnce`).

Paths below are relative to the repository; the long ones share the directories
`android/tunnel/src/main/java/org/amnezia/awg` and
`android/tunnel/tools/amneziawg-tools`.

## Model

| member | source | states |
|---|---|---|
| `JavaCurve25519.Curve25519.Eval` | android/tunnel/src/main/java/org/amnezia/awg/crypto/Curve25519.java:101-159 | with no public key given, the 32 bytes written at the offset are the RFC 7748 public key of the private key, and no other byte of the result changes |
| `JavaCurve25519.Curve25519.EvalAt` | android/tunnel/src/main/java/org/amnezia/awg/crypto/Curve25519.java:101-159 | for every public key: below 2^256 - 19 the bytes are those of the RFC ladder on all its 256 bits reduced mod p; for the nineteen keys above they are those of the ladder of the limb operations on the unreduced number |
| `JavaCurve25519.Curve25519.Decode` | android/tunnel/src/main/java/org/amnezia/awg/crypto/Curve25519.java:106-126 | for every public key, x_1 holds its value reduced mod p exactly if it is below 2^256 - 19, and unreduced otherwise |
| `JavaCurve25519.Curve25519.Unpack` | android/tunnel/src/main/java/org/amnezia/awg/crypto/Curve25519.java:108-120 | the loop of shifts and ors, which wrap at 32 bits, puts the 256-bit value of the bytes into 26-bit limbs |
| `JavaCurve25519.TopBitMatters` | android/tunnel/src/main/java/org/amnezia/awg/crypto/Curve25519.java:122-126 | the u-coordinate used is that of RFC 7748 exactly when the highest bit of the key is clear |
| `JavaCurve25519.WidePublicKeys` | android/tunnel/src/main/java/org/amnezia/awg/crypto/Curve25519.java:122-126 | for each of the nineteen keys from 2^256 - 19 on and every private key, the point after the first pass is not that of RFC 7748 |
| `JavaCurve25519.Curve25519.EvalCurve` | android/tunnel/src/main/java/org/amnezia/awg/crypto/Curve25519.java:238-294 | after the loop, with its conditional swaps deferred, the registers hold the 255-step ladder of the limb operations on the clamped scalar, whatever the number in x_1; the RFC ladder if that is canonical; and x_2 and z_2 are canonical in any case |
| `JavaCurve25519.Curve25519.Iterate` | android/tunnel/src/main/java/org/amnezia/awg/crypto/Curve25519.java:246-273 | one pass of the loop takes the ladder from one bit to the next and leaves canonical numbers; from canonical numbers it is the RFC step |
| `JavaCurve25519.Curve25519.Step` | android/tunnel/src/main/java/org/amnezia/awg/crypto/Curve25519.java:255-273 | the field operations of one pass compute the ladder step of the limb operations, for any limbs |
| `JavaCurve25519.Curve25519.AddFe` | android/tunnel/src/main/java/org/amnezia/awg/crypto/Curve25519.java:200-208 | any limbs give the sum with the carry out of ten limbs dropped and one trial subtraction; canonical inputs give the canonical sum mod p; every limb stays within int |
| `JavaCurve25519.Curve25519.SubFe` | android/tunnel/src/main/java/org/amnezia/awg/crypto/Curve25519.java:168-191 | any limbs give the difference, less 19 after a borrow, cut to 255 bits; canonical inputs give the canonical difference mod p, with borrows in int |
| `JavaCurve25519.Curve25519.MulFe` | android/tunnel/src/main/java/org/amnezia/awg/crypto/Curve25519.java:303-327 | any limbs give the folded product, canonical; canonical inputs give the product mod p; the products and carries stay within long, and limb 19 of the scratch buffer is and stays zero |
| `JavaCurve25519.Curve25519.MulA24` | android/tunnel/src/main/java/org/amnezia/awg/crypto/Curve25519.java:335-345 | any limbs give 121665 times the number, folded and canonical; canonical input gives it mod p |
| `JavaCurve25519.Curve25519.Reduce` | android/tunnel/src/main/java/org/amnezia/awg/crypto/Curve25519.java:417-460 | a carried product becomes the canonical residue of its fold cut to ten limbs, the intermediate limb staying within int |
| `JavaCurve25519.Curve25519.ReduceQuick` | android/tunnel/src/main/java/org/amnezia/awg/crypto/Curve25519.java:468-489 | the limbs become those of the trial subtraction of p from the value |
| `JavaCurve25519.Curve25519.CSwap` | android/tunnel/src/main/java/org/amnezia/awg/crypto/Curve25519.java:83-90 | the masked exclusive-or exchange swaps the two arrays when asked and changes nothing otherwise |
| `JavaCurve25519.Curve25519.Pow250` | android/tunnel/src/main/java/org/amnezia/awg/crypto/Curve25519.java:353-383 | computes the power 2^250 - 1 |
| `JavaCurve25519.Curve25519.Recip` | android/tunnel/src/main/java/org/amnezia/awg/crypto/Curve25519.java:391-407 | computes the power p - 2 |
| `JavaCurve25519.Curve25519.Store` | android/tunnel/src/main/java/org/amnezia/awg/crypto/Curve25519.java:146-154 | the bytes written are the little-endian digits of the canonical value |
| `JavaField.TrialIsMod` | android/tunnel/src/main/java/org/amnezia/awg/crypto/Curve25519.java:463-489 | below 2p one trial subtraction is the residue mod p |
| `JavaField.TwoTrialsCanonical` | android/tunnel/src/main/java/org/amnezia/awg/crypto/Curve25519.java:122-126 | two trial subtractions of a 256-bit value give a canonical residue exactly when the value is below 2^256 - 19; above, the value comes back unreduced |
| `JavaField.FoldedExactly` | android/tunnel/src/main/java/org/amnezia/awg/crypto/Curve25519.java:417-460 | the reduction of a product of any ten-limb numbers is its residue mod p exactly if the first fold is below 2^260 |
| `JavaField.LimbMulIsMul` | android/tunnel/src/main/java/org/amnezia/awg/crypto/Curve25519.java:303-327 | for canonical numbers nothing is lost: the folded product is the product mod p |
| `JavaField.StepIsLadderStep` | android/tunnel/src/main/java/org/amnezia/awg/crypto/Curve25519.java:255-273 | on canonical numbers one pass of limb operations is the ladder step of the RFC |
| `JavaField.LadderOnCanonical` | android/tunnel/src/main/java/org/amnezia/awg/crypto/Curve25519.java:238-294 | for a canonical u-coordinate the ladder of the limb operations is the RFC ladder at every bit |
| `JavaLimbs.TrialSubtraction` | android/tunnel/src/main/java/org/amnezia/awg/crypto/Curve25519.java:468-489 | adding 19 with carries and cutting bit 255 is the trial subtraction on values, for any ten limbs |
| `JavaLimbs.BorrowFix` | android/tunnel/src/main/java/org/amnezia/awg/crypto/Curve25519.java:168-191 | the borrow chain and the two corrections give the difference, less 19 after a borrow, cut to 255 bits |
| `JavaLimbs.FoldLemma` | android/tunnel/src/main/java/org/amnezia/awg/crypto/Curve25519.java:417-444 | folding the limbs above bit 255 gives the low part plus 19 times the high part, cut to ten limbs |
| `JavaLimbs.RefoldLemma` | android/tunnel/src/main/java/org/amnezia/awg/crypto/Curve25519.java:446-459 | the second fold leaves a value below 2p congruent to that of the first |
| `X25519.DeferredSwapIsDirect` | android/tunnel/tools/amneziawg-tools/contrib/embeddable-wg-library/wireguard.c:1708-1732 | swapping at every bit and swapping back passes through the same points as deferring the swaps, at every bit of every scalar |
| `KeyAgreement.DeriveBoth` | android/tunnel/src/main/java/org/amnezia/awg/crypto/Key.java:201-205 | the Java and the C library give byte for byte the same public key for every private key, that of RFC 7748 |
| `WireguardKey.GeneratePublicKey` | android/tunnel/tools/amneziawg-tools/contrib/embeddable-wg-library/wireguard.c:1699-1735 | the 32 bytes written are the RFC 7748 public key of the private key |
| `WireguardKey.Ladder255` | android/tunnel/tools/amneziawg-tools/contrib/embeddable-wg-library/wireguard.c:1708-1732 | the loop over 255 bits computes the ladder with swaps undone at once |
| `WireguardKey.Step` | android/tunnel/tools/amneziawg-tools/contrib/embeddable-wg-library/wireguard.c:1712-1729 | the field operations of one bit compute the ladder step, all operands within their bounds |
| `WireguardKey.Carry` | android/tunnel/tools/amneziawg-tools/contrib/embeddable-wg-library/wireguard.c:1587-1595 | one carry pass keeps the value mod p; digits and carries form an exact chain |
| `WireguardKey.Multmod` | android/tunnel/tools/amneziawg-tools/contrib/embeddable-wg-library/wireguard.c:1659-1675 | the product mod p within int64, with limb 0 in [-38, 65573] and the others in [0, 65535] |
| `WireguardKey.AddFe` | android/tunnel/tools/amneziawg-tools/contrib/embeddable-wg-library/wireguard.c:1643-1649 | limb-wise sum of the values mod p |
| `WireguardKey.Subtract` | android/tunnel/tools/amneziawg-tools/contrib/embeddable-wg-library/wireguard.c:1651-1657 | limb-wise difference of the values mod p |
| `WireguardKey.CSwap` | android/tunnel/tools/amneziawg-tools/contrib/embeddable-wg-library/wireguard.c:1597-1611 | swaps the arrays when asked and changes nothing otherwise |
| `WireguardKey.Invert` | android/tunnel/tools/amneziawg-tools/contrib/embeddable-wg-library/wireguard.c:1677-1691 | skipping the multiplication at bits 2 and 4 computes the power p - 2 |
| `WireguardKey.Pack` | android/tunnel/tools/amneziawg-tools/contrib/embeddable-wg-library/wireguard.c:1613-1641 | writes the unique representative below p in little-endian bytes |
| `Fe16.CarryValue` | android/tunnel/tools/amneziawg-tools/contrib/embeddable-wg-library/wireguard.c:1587-1595 | the carry out of the top limb, times 38, re-enters at limb 0 without changing the value mod p |
| `Fe16.FoldedProduct` | android/tunnel/tools/amneziawg-tools/contrib/embeddable-wg-library/wireguard.c:1659-1675 | adding 38 times the high half of the product keeps it mod p |
| `Fe16.InverseExponentIsPMinusTwo` | android/tunnel/tools/amneziawg-tools/contrib/embeddable-wg-library/wireguard.c:1683-1687 | the square-and-multiply schedule has exponent p - 2 |
| `Fe16.TwiceReduced` | android/tunnel/tools/amneziawg-tools/contrib/embeddable-wg-library/wireguard.c:1622-1632 | two conditional subtractions of p reduce every value three carries can leave |
| `Fe16.MirroredStepIsLadderStep` | android/tunnel/tools/amneziawg-tools/contrib/embeddable-wg-library/wireguard.c:1712-1729 | the C order of operations, with d and c reused, is the ladder step of the RFC |
| `Fiat32.Generic` | android/tunnel/tools/amneziawg-tools/src/curve25519-fiat32.h:752-849 | the ladder with deferred swaps computes the RFC scalar multiplication for every scalar and u-coordinate |
| `Fiat32.Step` | android/tunnel/tools/amneziawg-tools/src/curve25519-fiat32.h:810-839 | one pass, which adds 121666 E to BB, is the RFC ladder step |
| `Fiat32.OtherConstant` | android/tunnel/tools/amneziawg-tools/src/curve25519-fiat32.h:835-839 | E (BB + 121666 E) equals E (AA + 121665 E) |
| `Fiat32.Invert` | android/tunnel/tools/amneziawg-tools/src/curve25519-fiat32.h:556-604 | the addition chain computes the power p - 2 |
| `Netlink.ParseEncode` | android/tunnel/tools/amneziawg-tools/src/netlink.h:159-169 | a message of well-formed attributes parses back to the same tree in the same order |
| `Netlink.EncodeAllAligned` | android/tunnel/tools/amneziawg-tools/src/netlink.h:305-319 | every encoded list of attributes has a length that is a multiple of four |
| `Netlink.PlacedSize` | android/tunnel/tools/amneziawg-tools/src/netlink.h:305-319 | what one put adds is a multiple of four octets even when it is cut, and the whole attribute when it fits |
| `Netlink.Message.Put` | android/tunnel/tools/amneziawg-tools/src/netlink.h:305-319 | appends the encoding of one attribute, padded with zeros; a payload too long for the 16-bit length field is cut as that field says; the length stays a multiple of four |
| `Netlink.Message.PutCheck` | android/tunnel/tools/amneziawg-tools/src/netlink.h:345-352 | appends the attribute exactly when it fits the buffer, and otherwise changes nothing; the length stays a multiple of four |
| `Netlink.Message.NestStart` | android/tunnel/tools/amneziawg-tools/src/netlink.h:336-343 | opens a nest whose length is not yet known |
| `Netlink.Message.NestStartCheck` | android/tunnel/tools/amneziawg-tools/src/netlink.h:372-378 | opens a nest exactly when its header fits |
| `Netlink.Message.NestEnd` | android/tunnel/tools/amneziawg-tools/src/netlink.h:380-383 | closes a nest: the message is the earlier one followed by the nest with all that was put since |
| `Netlink.Message.NestCancel` | android/tunnel/tools/amneziawg-tools/src/netlink.h:385-388 | restores exactly the earlier message |
| `KernelDevice.ReadPeerAttributes` | android/tunnel/tools/amneziawg-tools/src/uapi/linux/linux/wireguard.h:67-129 | the receiver reads a peer back from the attributes that are sent for it |
| `SetDevice.PiecesJoin` | android/tunnel/tools/amneziawg-tools/src/uapi/linux/linux/wireguard.h:121-129 | a peer followed by its continuation has the effect of one peer with all the allowed IPs |
| `SetDevice.PieceAdvances` | android/tunnel/tools/amneziawg-tools/src/ipc-linux.h:238-308 | applying the piece sent next takes the device from one cursor position to the next |
| `SetDevice.PutIp` | android/tunnel/tools/amneziawg-tools/src/ipc-linux.h:283-298 | an allowed IP is written whole exactly when it fits; otherwise the message is as before |
| `SetDevice.PutIps` | android/tunnel/tools/amneziawg-tools/src/ipc-linux.h:276-301 | allowed IPs go in order from the cursor on, as many as fit |
| `SetDevice.PutHead` | android/tunnel/tools/amneziawg-tools/src/ipc-linux.h:242-275 | the attributes before the allowed IPs: all of them for a fresh peer, key and flags for a continued one |
| `SetDevice.PutAwgAndFlags` | android/tunnel/tools/amneziawg-tools/src/ipc-linux.h:267-275 | the attribute put without looking at the result is never lost: it is there whenever the flags that follow fit |
| `SetDevice.PutPeer` | android/tunnel/tools/amneziawg-tools/src/ipc-linux.h:238-322 | a peer is written whole, up to an allowed IP, or not at all; with 172 bytes of room it makes progress |
| `SetDevice.FillPeers` | android/tunnel/tools/amneziawg-tools/src/ipc-linux.h:236-322 | the peers nest of one message: what it holds is what lies between the two cursors |
| `SetDevice.BuildMessage` | android/tunnel/tools/amneziawg-tools/src/ipc-linux.h:184-323 | one message means the settings (first only) and the pieces up to the new cursor, and later messages always make progress; it begins with its own length, the family, NLM_F_REQUEST and NLM_F_ACK, the time and WG_CMD_SET_DEVICE |
| `SetDevice.SetDevice` | android/tunnel/tools/amneziawg-tools/src/ipc-linux.h:171-340 | for every device, request, reply pattern and buffer size: if all replies are good, receiving the messages one after another equals applying one unbounded request; each allowed IP is sent once and in order, REPLACE_ALLOWEDIPS once for each peer, settings and REPLACE_PEERS in message one only; no message exceeds the buffer if and only if the unchecked front of message one fits; every message is a multiple of four octets long; and the loop ends; every message sent has its header, every later one carries a peer, and none follows a bad reply |
| `SetDevice.FrontSizeSum` | android/tunnel/tools/amneziawg-tools/src/ipc-linux.h:186-237 | the size that decides it: headers, name, settings, flags and the header of the peers |
| `SetDevice.FrontCanOverrun` | android/tunnel/tools/amneziawg-tools/src/ipc-linux.h:220-223 | a request that overruns every buffer: two I strings of the greatest length the reader lets through |
| `SetDevice.Prepare` | android/tunnel/tools/amneziawg-tools/src/netlink.h:609-633 | the sixteen octets after the length: family, flags, sequence number, no port, command and version |
| `WireFormat.PeerOctets` | android/tunnel/tools/amneziawg-tools/src/uapi/linux/linux/wireguard.h:204-227 | the octets of a peer before its allowed IPs, attribute by attribute with numbers, lengths and padding written out |
| `WireFormat.AllowedIpOctets` | android/tunnel/tools/amneziawg-tools/src/uapi/linux/linux/wireguard.h:230-236 | the octets of one allowed IP of either family |
| `WireFormat.AllowedIpsNest` | android/tunnel/tools/amneziawg-tools/src/uapi/linux/linux/wireguard.h:215-225 | the allowed IPs follow the other attributes of a peer in nest 9 |
| `WireFormat.FrontOctets` | android/tunnel/tools/amneziawg-tools/src/uapi/linux/linux/wireguard.h:171-184 | the octets before the peers: the name, the settings and the flag that replaces peers |
| `WireFormat.PeersNest` | android/tunnel/tools/amneziawg-tools/src/uapi/linux/linux/wireguard.h:175-184 | the peers are nest 8 |
| `WireFormat.RemovedPeer` | android/tunnel/tools/amneziawg-tools/src/uapi/linux/linux/wireguard.h:88-95 | a peer that is removed goes with its routes, and nothing else of the device changes |
| `WireFormat.UpdatedPeer` | android/tunnel/tools/amneziawg-tools/src/uapi/linux/linux/wireguard.h:88-116 | what a request gives of a peer replaces what was there, the rest stays; each allowed IP becomes a route to it, and its other routes go exactly if it asks for that |
| `WireFormat.SameRoute` | android/tunnel/tools/amneziawg-tools/src/uapi/linux/linux/wireguard.h:99-103 | two allowed IPs are one route exactly if family and prefix length agree and the bits of the prefix do |
| `WireFormat.SettingStored` | android/tunnel/tools/amneziawg-tools/src/uapi/linux/linux/wireguard.h:83-85 | the last setting of a number counts, and settings not given stay |
| `WireFormat.RequestApplied` | android/tunnel/tools/amneziawg-tools/src/uapi/linux/linux/wireguard.h:80-86 | another name changes nothing; peers and routes are dropped before the peers of the request exactly with REPLACE_PEERS |
| `CoalescePeers.Coalesce` | android/tunnel/tools/amneziawg-tools/src/ipc-linux.h:648-668 | succeeds exactly when no run of equal keys has an empty middle piece that loses the tail, and then joins adjacent pieces in order |
| `CoalescePeers.EmptyMiddleBreaks` | android/tunnel/tools/amneziawg-tools/src/ipc-linux.h:648-668 | lists on which it fails: a filled piece, an empty one and another of the same key |
| `CoalescePeers.CoalesceUndoesSplit` | android/tunnel/tools/amneziawg-tools/src/ipc-linux.h:466-488 | cutting every peer into adjacent pieces and coalescing gives the peers back, when neighbours differ in key |
| `CoalescePeers.FilledPiecesAreSafe` | android/tunnel/tools/amneziawg-tools/src/ipc-linux.h:648-668 | continuations with at least one allowed IP never break the join |
| `CoalescePeers.CoalesceDump` | android/tunnel/tools/amneziawg-tools/src/ipc-linux.h:466-488 | the loop on a parsed dump whose later pieces have an allowed IP each succeeds and gives the original peers in their order, when neighbours differ in key |
| `KeyText.Base64Image` | android/tunnel/tools/amneziawg-tools/src/encoding.c:24-33 | the texts of keys are exactly the 44-character strings over the alphabet with one = and no stray bits |
| `KeyText.Base64Injective` | android/tunnel/tools/amneziawg-tools/src/encoding.c:24-33 | no two keys have the same text |
| `KeyText.UnpackOfBase64` | android/tunnel/tools/amneziawg-tools/src/encoding.c:50-72 | unpacking the text of a key gives the key |
| `KeyText.HexUnique` | android/tunnel/tools/amneziawg-tools/src/encoding.c:85-114 | a hexadecimal text of either case determines its key |
| `KeyCodec.EncodeDigitIsAlphabet` | android/tunnel/tools/amneziawg-tools/src/encoding.c:15-20 | the branch-free character formula is table 1 of RFC 4648, with arithmetic and with logical shifts |
| `KeyCodec.DecodeDigitIsReadDigit` | android/tunnel/tools/amneziawg-tools/src/encoding.c:39-46 | the branch-free digit formula inverts the table and is -1 elsewhere, for signed and unsigned char and for Java; for Java characters above 0xFF it is the place of the low octet, counted from one, modulo the power of two that divides the high octet |
| `KeyCodec.EncodeBase64` | android/tunnel/tools/amneziawg-tools/src/encoding.c:11-22 | four characters for three octets, also when the octets are signed |
| `KeyCodec.KeyToBase64` | android/tunnel/tools/amneziawg-tools/src/encoding.c:24-33 | writes the base64 text of the key |
| `KeyCodec.DecodeBase64` | android/tunnel/tools/amneziawg-tools/src/encoding.c:35-48 | the 24-bit group when all four characters are read as digits, a negative number otherwise |
| `KeyCodec.KeyFromBase64` | android/tunnel/tools/amneziawg-tools/src/encoding.c:50-72 | for every text: true exactly on what is read as the text of a key, and then the key whose text that is; without characters above 0xFF what is read is the text itself |
| `KeyCodec.SeenIsText` | android/tunnel/src/main/java/org/amnezia/awg/crypto/Key.java:92-120 | an accepted text is the text of a key exactly if it has no character above 0xFF |
| `KeyCodec.WideLetter` | android/tunnel/src/main/java/org/amnezia/awg/crypto/Key.java:45-58 | such characters are accepted: U+022B passes for the letter A |
| `HexCodec.EncodeNibbleIsHexDigit` | android/tunnel/tools/amneziawg-tools/src/encoding.c:78-81 | the branch-free formula is the lower-case hexadecimal digit |
| `HexCodec.KeyToHex` | android/tunnel/tools/amneziawg-tools/src/encoding.c:74-83 | writes the base16 text of the key |
| `HexCodec.DecodeNibble` | android/tunnel/tools/amneziawg-tools/src/encoding.c:94-101 | zero error exactly on the characters accepted; the value read of every character, also above 0xFF where the masks are neither zeros nor ones |
| `HexCodec.KeyFromHex` | android/tunnel/tools/amneziawg-tools/src/encoding.c:85-114 | true exactly on 64 accepted characters; each octet of the key is what is read of its two characters, wide ones included; without wide characters true exactly on hexadecimal texts, of which the key is then the one written |
| `HexCodec.AcceptedIsHex` | android/tunnel/src/main/java/org/amnezia/awg/crypto/Key.java:142-178 | an accepted text is hexadecimal exactly if it has no character above 0xFF |
| `HexCodec.WideHexDigit` | android/tunnel/src/main/java/org/amnezia/awg/crypto/Key.java:142-178 | such characters are accepted: U+0100 passes for a digit |
| `HexCodec.Base64RoundTrip` | android/tunnel/src/main/java/org/amnezia/awg/crypto/Key.java:92-120 | a key written in base64 by C or Java is read back by C or Java |
| `HexCodec.HexRoundTrip` | android/tunnel/src/main/java/org/amnezia/awg/crypto/Key.java:142-178 | and likewise in base16 |
| `Validators.IsValidKey` | android/tunnel/tools/amneziawg-tools/contrib/highlighter/highlighter.c:60-92 | accepts exactly the texts of keys, the strings that key_from_base64 accepts |
| `Validators.IsValidIpv4` | android/tunnel/tools/amneziawg-tools/contrib/highlighter/highlighter.c:124-140 | accepts exactly four decimal octets without leading zeros between dots, whatever follows the span |
| `Validators.IsValidIpv6` | android/tunnel/tools/amneziawg-tools/contrib/highlighter/highlighter.c:142-178 | accepts exactly the text forms of section 2.2 of RFC 4291, and, when a colon follows the span, also up to seven groups without an end |
| `AddressGrammar.Ipv6IsGap` | android/tunnel/tools/amneziawg-tools/contrib/highlighter/highlighter.c:142-178 | the grammar with at most one :: and at most seven other pieces is the one the scanner follows |
| `Validators.IsValidUint` | android/tunnel/tools/amneziawg-tools/contrib/highlighter/highlighter.c:180-205 | accepts exactly the numbers of at most ten characters within the bounds |
| `Validators.IsValidHostname` | android/tunnel/tools/amneziawg-tools/contrib/highlighter/highlighter.c:94-122 | accepts exactly the host names: counting digits and dots tells whether anything else occurs |
| `AddressGrammar.DotsMayRepeat` | android/tunnel/tools/amneziawg-tools/contrib/highlighter/highlighter.c:110-119 | a host name stays one when a dot in it is doubled: the test against two dots in a row is never reached |
| `AddressGrammar.DoubleDotHost` | android/tunnel/tools/amneziawg-tools/contrib/highlighter/highlighter.c:110-119 | a..b is accepted |
| `Validators.IsValidScope` | android/tunnel/tools/amneziawg-tools/contrib/highlighter/highlighter.c:259-270 | accepts exactly 1 to 64 scope characters |
| `Validators.IsValidEndpoint` | android/tunnel/tools/amneziawg-tools/contrib/highlighter/highlighter.c:272-313 | accepts exactly a bracketed scoped IPv6 address, an IPv4 address or a host name, then a colon and a port |
| `Validators.IsValidBracketed` | android/tunnel/tools/amneziawg-tools/contrib/highlighter/highlighter.c:278-305 | the scan to the bracket, with its early rejections, decides the same grammar |
| `Validators.LastColon` | android/tunnel/tools/amneziawg-tools/contrib/highlighter/highlighter.c:555-561 | the colon that ends the host is the last one of an endpoint |
| `Validators.IsValidNetwork` | android/tunnel/tools/amneziawg-tools/contrib/highlighter/highlighter.c:315-338 | accepts exactly an address, alone or with a prefix length within its bound, with the same addition |
| `HighlightSpec.TextCovers` | android/tunnel/tools/amneziawg-tools/contrib/highlighter/highlighter.c:574-641 | the colouring of every text is in bounds, increasing and disjoint, and every character other than space, tab and newline is in exactly one span |
| `HighlightSpec.ValueCovers` | android/tunnel/tools/amneziawg-tools/contrib/highlighter/highlighter.c:510-572 | the spans of every value partition it |
| `HighlightSpec.ListCovers` | android/tunnel/tools/amneziawg-tools/contrib/highlighter/highlighter.c:482-508 | the spans of every list of addresses partition its visible characters |
| `Highlighter.SpanArray.Append` | android/tunnel/tools/amneziawg-tools/contrib/highlighter/highlighter.c:425-443 | appends one span unless it is empty |
| `Highlighter.HighlightItem` | android/tunnel/tools/amneziawg-tools/contrib/highlighter/highlighter.c:445-480 | writes the spans of one item |
| `Highlighter.HighlightMultivalue` | android/tunnel/tools/amneziawg-tools/contrib/highlighter/highlighter.c:482-508 | the single pass that trims as it goes, and repaints a dangling comma, writes the spans of the comma-separated list |
| `Highlighter.HighlightValue` | android/tunnel/tools/amneziawg-tools/contrib/highlighter/highlighter.c:510-572 | writes the spans of a value for its field |
| `Highlighter.ClassifyValue` | android/tunnel/tools/amneziawg-tools/contrib/highlighter/highlighter.c:512-547 | the colour of a value of one piece is that of its grammar |
| `Highlighter.HighlightEndpoint` | android/tunnel/tools/amneziawg-tools/contrib/highlighter/highlighter.c:548-563 | cuts a valid endpoint at its last colon |
| `Highlighter.Finish` | android/tunnel/tools/amneziawg-tools/contrib/highlighter/highlighter.c:585-602 | at the end of a line or the start of a comment, what is still owed for the line is written and the section is updated |
| `Highlighter.FinishKey` | android/tunnel/tools/amneziawg-tools/contrib/highlighter/highlighter.c:621-631 | at the equals sign the key is written and becomes the current field |
| `Highlighter.HighlightConfig` | android/tunnel/tools/amneziawg-tools/contrib/highlighter/highlighter.c:574-641 | the state machine writes exactly the spans of the line-by-line definition, followed by HighlightEnd; so they cover the text |
| `HighlightColours.FieldColours` | android/tunnel/tools/amneziawg-tools/contrib/highlighter/highlighter.c:364-406 | under a header in any case, every name of a field is a field exactly in its own section and an error in the other, and every other name an error |
| `HighlightColours.ValueColours` | android/tunnel/tools/amneziawg-tools/contrib/highlighter/highlighter.c:510-547 | the value after the equals sign has the colour its name gives it, or that of an error |
| `HighlightColours.PublicKeyColours` | android/tunnel/tools/amneziawg-tools/contrib/highlighter/highlighter.c:574-641 | the four spans of a public key under a peer, for every key |
| `HighlightColours.PrivateKeyColours` | android/tunnel/tools/amneziawg-tools/contrib/highlighter/highlighter.c:574-641 | the four spans of a private key under its interface and under a peer, for every key |
| `HighlightColours.EndpointColours` | android/tunnel/tools/amneziawg-tools/contrib/highlighter/highlighter.c:548-563 | an endpoint is host, delimiter and port, cut at the colon before the port |
| `HighlightColours.ListColours` | android/tunnel/tools/amneziawg-tools/contrib/highlighter/highlighter.c:564-568 | Address, DNS and AllowedIPs are the lists, each with its own items |
| `HighlightColours.FieldNames` | android/tunnel/tools/amneziawg-tools/contrib/highlighter/highlighter.c:373-397 | each field is meant by its name, in any case, and by no other |
| `HighlightColours.CaselessExactly` | android/tunnel/tools/amneziawg-tools/contrib/highlighter/highlighter.c:42-58 | texts are the same up to the case of their letters and nothing else |
| `ElfCleaner.LastNonNull` | android/tunnel/tools/elf-cleaner/elf-cleaner.cpp:137-144 | the last entry that is not null, or index 0 |
| `ElfCleaner.Remove` | android/tunnel/tools/elf-cleaner/elf-cleaner.cpp:163-171 | nulls an entry and swaps it to the end without losing another |
| `ElfCleaner.Mask` | android/tunnel/tools/elf-cleaner/elf-cleaner.cpp:172-186 | masks DT_FLAGS_1 and leaves all else |
| `ElfCleaner.CleanSection` | android/tunnel/tools/elf-cleaner/elf-cleaner.cpp:137-188 | for a section with entries: no DT_RPATH is left, no DT_RUNPATH below level 24, no version or hash entry below 23 and no AArch64 entry below 31; every other entry is kept as often as it was there, DT_FLAGS_1 cut to the supported flags; nulls stay last, and a clean section is left unchanged, so that a second run changes nothing |
| `ElfCleaner.SupportedExactly` | android/tunnel/tools/elf-cleaner/elf-cleaner.cpp:148-162 | what the switch removes is exactly what the table of tags and levels, by number, does not support |
| `ElfCleaner.SurvivorCount` | android/tunnel/tools/elf-cleaner/elf-cleaner.cpp:148-188 | a supported entry survives as often as it is there, its flags cut |
| `ElfCleaner.FlagBits` | android/tunnel/tools/elf-cleaner/elf-cleaner.cpp:326-329 | the supported flags are 3, and 11 from level 23 |
| `SyncConf.MemcmpAntisymmetric` | android/tunnel/tools/amneziawg-tools/src/setconf.c:21-28 | the key comparison is antisymmetric |
| `SyncConf.MemcmpSign` | android/tunnel/tools/amneziawg-tools/src/setconf.c:21-28 | the first difference decides the order of two keys |
| `SyncConf.Scan` | android/tunnel/tools/amneziawg-tools/src/setconf.c:77-97 | collects the keys that the scan flags |
| `SyncConf.FlaggedExactly` | android/tunnel/tools/amneziawg-tools/src/setconf.c:77-97 | for all inputs the keys flagged are the runtime keys absent from the file and those the runtime list has twice |
| `SyncConf.DoubleLosesShared` | android/tunnel/tools/amneziawg-tools/src/setconf.c:77-97 | a file with one key and a runtime list that has it twice: the key is flagged for removal |
| `SyncConf.SyncConf` | android/tunnel/tools/amneziawg-tools/src/setconf.c:30-99 | fails exactly when there are file peers and the interface cannot be read; both early returns leave the request as it is; otherwise the removals are prepended and REPLACE_PEERS is cleared |
| `SyncConf.SharedPeersStay` | android/tunnel/tools/amneziawg-tools/src/setconf.c:30-99 | with distinct runtime keys a peer of both lists is not removed: its entry and its routes are what the file alone makes of them |
| `SyncConf.SyncIsMerge` | android/tunnel/tools/amneziawg-tools/src/setconf.c:30-99 | with distinct runtime keys the device becomes what the file without REPLACE_PEERS would make of it, less the runtime peers absent from the file and their routes |
| `SyncConf.SyncLeavesFilePeers` | android/tunnel/tools/amneziawg-tools/src/setconf.c:30-99 | applying the request leaves exactly the keys of the file |
| `ConfigText.StrtoulDecimal` | android/tunnel/tools/amneziawg-tools/src/showconf.c:42-62 | strtoul reads back every number that %u prints |
| `ConfigText.StrtoulHex` | android/tunnel/tools/amneziawg-tools/src/showconf.c:43-44 | and every number that 0x%x prints |
| `ConfigReader.CleanSpecialLine` | android/tunnel/tools/amneziawg-tools/src/config.c:684-720 | the two passes over an I line trim around the equals sign and at the end, and keep blanks inside the value |
| `ConfigReader.CleanLine` | android/tunnel/tools/amneziawg-tools/src/config.c:635-671 | the comment and the blanks are taken off as for the kind of the line |
| `ConfigReader.ReadAllowedIps` | android/tunnel/tools/amneziawg-tools/src/config.c:347-418 | the strsep loop parses the list entry by entry |
| `ConfigReader.Reader.Line` | android/tunnel/tools/amneziawg-tools/src/config.c:635-682 | one line changes the context as the definition says or is refused |
| `ConfigReader.ReadFile` | android/tunnel/tools/amneziawg-tools/src/config.c:722-749 | a file is read line by line and refused at the first bad line or a peer without a key |
| `ConfigMeaning.AllowedIpMeans` | android/tunnel/tools/amneziawg-tools/src/config.c:371-395 | an allowed IP: of IPv6 exactly with a colon, its prefix length a number up to 32 or 128 after a slash, and the full length without one; anything else is refused |
| `ConfigMeaning.BareAddress` | android/tunnel/tools/amneziawg-tools/src/config.c:390-393 | an address without a slash reads as the address with /32 or /128 |
| `ConfigMeaning.BareLine` | android/tunnel/tools/amneziawg-tools/src/config.c:347-418 | so does the whole line that sets it, for every state of the reader |
| `ConfigMeaning.AllowedIpsMean` | android/tunnel/tools/amneziawg-tools/src/config.c:364-409 | a list is its entries, one after another, refused as soon as one is |
| `ConfigMeaning.FwmarkMeans` | android/tunnel/tools/amneziawg-tools/src/config.c:84-112 | for every text: off is 0, a number of 32 bits in decimal or after 0x is itself, all else is refused |
| `ConfigMeaning.KeepaliveMeans` | android/tunnel/tools/amneziawg-tools/src/config.c:289-313 | for every text: off is 0, a number up to 65535 is itself, all else is refused |
| `ConfigMeaning.SwitchMeans` | android/tunnel/tools/amneziawg-tools/src/config.c:461-494 | for every text: on, off, or a number, false where its low 32 bits are zero |
| `ConfigMeaning.NumberMeans` | android/tunnel/tools/amneziawg-tools/src/config.c:442-459 | digits read as a number cut to 64 and then 32 bits, which must be at most 65535 |
| `ConfigMeaning.NumberSigned` | android/tunnel/tools/amneziawg-tools/src/config.c:442-459 | a sign is taken: a minus counts modulo 2^64 |
| `ConfigMeaning.KeyMeans` | android/tunnel/tools/amneziawg-tools/src/config.c:114-122 | a key is read exactly from its base64 text |
| `ConfigMeaning.EndpointMeans` | android/tunnel/tools/amneziawg-tools/src/config.c:202-245 | the host in brackets or before the last colon, and the service after it, are looked up |
| `ConfigMeaning.EndpointRefused` | android/tunnel/tools/amneziawg-tools/src/config.c:217-245 | a text without host, colon and service in either form is refused |
| `ConfigMeaning.DeviceLineMeans` | android/tunnel/tools/amneziawg-tools/src/config.c:527-535 | ListenPort, FwMark and PrivateKey, in any case, set their field |
| `ConfigMeaning.NumberLineMeans` | android/tunnel/tools/amneziawg-tools/src/config.c:536-563 | Jc, Jmin, Jmax and S1 to S4 set the number of their name |
| `ConfigMeaning.TextLineMeans` | android/tunnel/tools/amneziawg-tools/src/config.c:564-601 | H1 to H4 and I1 to I5 set the text of their name, if it is shorter than 5120 characters |
| `ConfigMeaning.PeerLineMeans` | android/tunnel/tools/amneziawg-tools/src/config.c:603-623 | the six keys of a peer section set their field; AllowedIPs appends |
| `ConfigMeaning.LineRefused` | android/tunnel/tools/amneziawg-tools/src/config.c:31-44 | a line with another name, or with nothing after the equals sign, is refused |
| `ConfigMeaning.EmptyListAddsNothing` | android/tunnel/tools/amneziawg-tools/src/config.c:357-361 | an empty list, given to the parser directly, adds no address |
| `ConfigMeaning.SectionMeans` | android/tunnel/tools/amneziawg-tools/src/config.c:496-633 | headers in any case open their section, [Peer] with an empty peer that replaces its allowed IPs; a line before any header is refused |
| `ConfigMeaning.StartMeans` | android/tunnel/tools/amneziawg-tools/src/config.c:722-733 | a replacing file starts with mark 0 and the zero key, an added one with nothing |
| `ConfigMeaning.FinishMeans` | android/tunnel/tools/amneziawg-tools/src/config.c:735-749 | a device is refused exactly if a peer has no public key |
| `ConfigMeaning.CommentIgnored` | android/tunnel/tools/amneziawg-tools/src/config.c:642-647 | what follows a hash sign does not count |
| `ConfigMeaning.BlanksGo` | android/tunnel/tools/amneziawg-tools/src/config.c:665-671 | of an ordinary line exactly the six blank characters are dropped |
| `ConfigMeaning.ShownInterface` | android/tunnel/tools/amneziawg-tools/src/showconf.c:40-44 | showconf prints the port in decimal and the mark in hexadecimal |
| `ConfigRoundTrip.MatchOther` | android/tunnel/tools/amneziawg-tools/src/config.c:31-44 | no key matches the line of another key |
| `ConfigRoundTrip.CleanSpecialAssign` | android/tunnel/tools/amneziawg-tools/src/config.c:684-720 | a printed I line comes out as key, equals sign and the value with its inner blanks |
| `ConfigRoundTrip.ListReads` | android/tunnel/tools/amneziawg-tools/src/config.c:347-418 | a printed list of allowed IPs is parsed back in its order |
| `ConfigRoundTrip.EndpointReads` | android/tunnel/tools/amneziawg-tools/src/config.c:202-245 | a printed endpoint, bracketed or not, is cut back into its host and service |
| `ConfigRoundTrip.ReadsPeerBody` | android/tunnel/tools/amneziawg-tools/src/showconf.c:84-129 | the lines of one peer rebuild the peer |
| `ConfigRoundTrip.ReadsPeers` | android/tunnel/tools/amneziawg-tools/src/showconf.c:83-133 | the lines of all peers rebuild them in order |
| `ConfigRoundTrip.LinesReadBack` | android/tunnel/tools/amneziawg-tools/src/showconf.c:40-133 | reading the lines printed rebuilds the device: fields, peers, allowed IPs and their order |
| `ConfigRoundTrip.TextReadBack` | android/tunnel/tools/amneziawg-tools/src/showconf.c:40-133 | the same for the whole text, cut at its newlines, for every device whose H strings have no blanks, whose I strings are trimmed and whose addresses the library reads back |
| `ConfigFixedPoint.LineValue` | android/tunnel/tools/amneziawg-tools/src/config.c:635-720 | the value an H or I line stores is in a form that can be printed, whichever way the line was cleaned |
| `ConfigFixedPoint.LinesKept` | android/tunnel/tools/amneziawg-tools/src/config.c:496-682 | every line that is accepted keeps the device printable |
| `ConfigFixedPoint.ReadPrintRead` | android/tunnel/tools/amneziawg-tools/src/showconf.c:40-133 | every text that is accepted, with no condition on it: the device read can be printed, and reading what is printed gives it back, up to zeros that are not printed and fields that a replacing file clears |
| `ConfigFixedPoint.FixedPoint` | android/tunnel/tools/amneziawg-tools/src/showconf.c:40-133 | a replacing file comes back exactly if and only if it spells out no zero port or keepalive, and after one round always |
| `GoTunnels.HandleTable.TurnOn` | android/tunnel/tools/libwg-go/api-android.go:76-147 | gives the smallest free handle, or -1 exactly when the device does not come up or all handles are taken; the table changes at that handle only |
| `GoTunnels.HandleTable.TurnOff` | android/tunnel/tools/libwg-go/api-android.go:150-160 | removes that handle and no other |
| `GoBackend.Backend.BringUp` | android/tunnel/src/main/java/org/amnezia/awg/backend/GoBackend.java:426-532 | fails exactly when there is no configuration or a step fails, the calls of the Android builder included, with the exception of the first obstacle; a failure leaves everything down |
| `GoBackend.Backend.TearDown` | android/tunnel/src/main/java/org/amnezia/awg/backend/GoBackend.java:533-549 | everything is down and the tunnel has been told |
| `GoBackend.Backend.SetState` | android/tunnel/src/main/java/org/amnezia/awg/backend/GoBackend.java:397-420 | keeps handle, tunnel, configuration and Go table in agreement; fails exactly when a new bring-up fails, with its reason or that of the failed restore, and then the old tunnel is restored or, if that fails too, everything is down; the tunnels are told exactly what happened, in order, and nothing happens when the tunnel runs already as asked |
| `GoBackend.Backend.OnDestroy` | android/tunnel/src/main/java/org/amnezia/awg/backend/GoBackend.java:622-636 | everything is down and the tunnel has been told |
| `GoBackend.Run` | android/tunnel/src/main/java/org/amnezia/awg/backend/GoBackend.java:397-636 | after every sequence of calls and failures the two sides agree and every tunnel was last told the state it is in |
| `Failover.NeverTwoAtOnce` | android/tunnel/src/main/java/org/amnezia/awg/backend/GoBackend.java:329-364 | between two starts a switch has completed, also when a poller schedules on an old check |
| `Failover.SafeNext` | android/tunnel/src/main/java/org/amnezia/awg/backend/GoBackend.java:321-364 | a fair start or a completion extends a safe history |
| `Failover.StartFairExactly` | android/tunnel/src/main/java/org/amnezia/awg/backend/GoBackend.java:321-364 | a start when none is under way is fair exactly if there are two servers, enough failures in a row and, after the last success, the cooldown |
| `Failover.Switcher.Configure` | android/tunnel/src/main/java/org/amnezia/awg/backend/GoBackend.java:93-108 | settings have their lower limits, the primary server is kept, the active server is the one asked for if it is configured, and the count of failures starts again |
| `Failover.Switcher.Poll` | android/tunnel/src/main/java/org/amnezia/awg/backend/GoBackend.java:265-297 | a turn is recorded as reached or failed, or not counted; a switch starts exactly when it failed, enough failed turns have come in a row, another server is configured, none is under way and the cooldown has passed; it goes to the first other server with its own configuration, and without a start the choice is unchanged |
| `Failover.Switcher.Schedule` | android/tunnel/src/main/java/org/amnezia/awg/backend/GoBackend.java:329-364 | starts a switch exactly when there is a tunnel, none is under way and some server is not the active one, and chooses the first such server in the order of the map with its own configuration; a safe history stays safe exactly if no switch starts or two servers, enough failures and, after a success, the cooldown are there |
| `Failover.Switcher.Sample` | android/tunnel/src/main/java/org/amnezia/awg/backend/GoBackend.java:265-291 | a turn is recorded as reached or failed, or not counted, and the failures in a row are counted |
| `Failover.Switcher.Finish` | android/tunnel/src/main/java/org/amnezia/awg/backend/GoBackend.java:346-362 | only a success moves the active server and starts the cooldown |
| `Failover.Run` | android/tunnel/src/main/java/org/amnezia/awg/backend/GoBackend.java:93-364 | in every history at most one switch is under way, and it goes to another server; and if no poller schedules on an old check, every start has two servers, enough failed samples in a row since the last success or change of settings and at least the cooldown in force, never under 60 s, after each success |
| `Failover.StaleCheck` | android/tunnel/src/main/java/org/amnezia/awg/backend/GoBackend.java:286-290 | from every state due for a switch, two pollers that both checked defeat the cooldown: schedule, success, schedule makes the history unsafe |
| `Failover.DueForSwitch` | android/tunnel/src/main/java/org/amnezia/awg/backend/GoBackend.java:93-108 | two servers and two failed samples reach such a state |
| `Switchover.CompleteSwitch` | android/tunnel/src/main/java/org/amnezia/awg/backend/GoBackend.java:346-362 | after a success the backend runs the configuration of the server that is now active; after a failure the active server and the cooldown are as before, and the old tunnel runs with its configuration or, if restoring it fails, nothing |
| `Switchover.TurnAndSwitch` | android/tunnel/src/main/java/org/amnezia/awg/backend/GoBackend.java:265-362 | a turn of the poller and the switch it starts: it starts exactly when it is due, and after a success the backend runs the first other server, now active, with that server's own configuration |
| `AwgQuickBackend.Backend.SetStateInternal` | android/tunnel/src/main/java/org/amnezia/awg/backend/AwgQuickBackend.java:272-302 | changes one tunnel when its command works and nothing when it fails |
| `AwgQuickBackend.Backend.TakeDownAll` | android/tunnel/src/main/java/org/amnezia/awg/backend/AwgQuickBackend.java:232-246 | all tunnels are down, or those taken down are brought up again |
| `AwgQuickBackend.Backend.Restore` | android/tunnel/src/main/java/org/amnezia/awg/backend/AwgQuickBackend.java:258-260 | brings up tunnels of the snapshot with their own configurations, all of them if the commands work |
| `AwgQuickBackend.Backend.SetState` | android/tunnel/src/main/java/org/amnezia/awg/backend/AwgQuickBackend.java:219-270 | with interfaces left over from an earlier process or without: a failure needs a failed command, a missing configuration or missing tools, runs nothing that did not run before, and leaves all as it was if the compensating commands work, but for a left-over interface whose own change failed half way; success means what was asked; it succeeds exactly when every command it needs works, says how many they are, and runs none when the state asked for is there |
| `AwgQuickBackend.Backend.SetStateAlone` | android/tunnel/src/main/java/org/amnezia/awg/backend/AwgQuickBackend.java:219-270 | with multiple tunnels off, where at most one interface runs there are more afterwards exactly when it is a left-over one of another tunnel and the call asks for an up state with a configuration, the tools are there and the first command works |
| `AwgQuickBackend.Run` | android/tunnel/src/main/java/org/amnezia/awg/backend/AwgQuickBackend.java:219-302 | every sequence of calls, failures and changes of the multiple-tunnels setting leaves only known tunnels and left-over interfaces running; with nothing left over and the setting never on, at most one tunnel runs and the backend knows it |
| `AwgQuickBackend.TwoAtOnce` | android/tunnel/src/main/java/org/amnezia/awg/backend/AwgQuickBackend.java:231-247 | from every state with one left-over interface and no known tunnel, bringing another tunnel up by a command that works makes both run |

## Left out

- Fiat32.Generic: the arithmetic is read as exact operations mod p; the machine-generated limbs and the byte codec are not modelled, nor is any of hacl64.
- The group law of the curve, the primality of p, running time and the zeroing of memory.
- SetDevice.SetDevice: writing past the buffer is not modelled, so where message one does not fit the clauses speak of the bytes meant, not of the memory; the settings of the device are one list of attributes rather than some twenty optional fields, and the H strings are sent as given whatever the protocol version; socket errors appear only as a bad reply.
- SyncConf.SyncConf: allocation does not fail.
- The linked lists of `coalesce_peers`, `sync_conf` and the configuration reader are sequences: allocation failure and aliasing are not modelled.
- `qsort` in syncconf is any sorted permutation, given as a parameter.
- SyncConf.SyncLeavesFilePeers: the interface is read and written without another program changing it in between.
- KeyCodec.KeyFromBase64: surrogate code units, which are not characters here, are left out.
- HexCodec.KeyFromHex: surrogate code units are left out likewise.
- Highlighter.SpanArray.Append: memory allocation succeeds, so the capacity is not modelled; and fields that a mobile build compiles out are present.
- Address and name functions of the C library (inet_ntop, inet_pton, getnameinfo, getaddrinfo) are parameters that must invert one another on the device printed.
- ConfigReader.ReadFile: a number that `parse_uint16` or `parse_bool` cannot read ends the program, which is an ordinary refusal here; the warning for addresses with host bits is not printed; command-line configuration (`config_read_cmd`) and key files are not modelled.
- `dry_run` and empty dynamic sections in the ELF cleaner, and its other passes over the file.
- GoBackend.Backend.SetState: calls do not overlap, closing a detached descriptor and stopping the service do not throw, and the Android service is present or not as a whole; the polling thread appears in `Failover` only.
- Failover.Switcher.Poll: check and schedule are one step here, and two in `Sample` and `Schedule`; the clock does not run backwards, the failure count does not overflow, and the status callback is absent.
- AwgQuickBackend.Backend.SetStateInternal: a command that fails leaves its interface as it was; temporary files are not modelled.
- Parsing in the Java `Config`, `Interface` and `Peer` classes, the Flutter application, shells and installers, sockets and other platforms.
