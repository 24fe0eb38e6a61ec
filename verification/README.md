# Glimpse: a verified model

The agent of this repository answers DNS questions about services and servers
that it finds through Consul. Its own code is thin; what it relies on is the
code it is built with. This project models the parts of both where correctness
is not obvious and proves what they promise:

- **Consul's distributed semaphore** (`Semaphore.dfy`, `SemaphoreRuns.dfy`), as a
  state machine over a key-value store with compare-and-set, dying sessions, stale
  reads and lost replies, and what one undisturbed call does.
- **Punycode** (`Punycode.dfy`, its digits and biases in `PunycodeDigits.dfy`, labels
  with their encodings in `PunycodeSamples.dfy`, and in 32-bit words
  `PunycodeWords.dfy`), sections 3 and 5 to 7 of RFC 3492.
- **DNS names, messages and labels** (`DnsName.dfy`, `DnsPack.dfy`,
  `DnsText.dfy`, `DnsCompression.dfy`, `DnsMeaning.dfy`, `DnsRecord.dfy`,
  `DnsMessage.dfy`, `DnsNumbers.dfy`, `DnsBuffer.dfy`, `DnsNsec.dfy`,
  `DnsLabels.dfy`), sections 2.3, 3.1, 4.1 and 5.1 of RFC 1035 and section 4.1.2 of
  RFC 4034.
- **Duplicate suppression** (`Singleflight.dfy`) as a state machine over all
  interleavings.
- **The radix tree, ACLs and their caches** (`RadixShape.dfy`, `RadixTree.dfy`,
  `Acl.dfy`, `AclLines.dfy`, `Lru.dfy`, `AclCache.dfy`): a mutable trie that refines
  a map, policies over it and what a list of them answers, and three caches that
  never change an answer.
- **The protobuf wire format** (`ProtoWire.dfy`, `ProtoMessage.dfy`,
  `ProtoDecode.dfy`, `ProtoUnknown.dfy`, `ProtoBytes.dfy`): encoding, sizing,
  decoding, skipping, and what becomes of unknown fields.
- **Strings and symbols of binc** (`BincSymbols.dfy`, `BincBytes.dfy`).
- **The agent's answers** (`AgentDns.dfy`, `AgentQuestions.dfy`): which name is a
  question for what, what is answered to it, and how nameservers are numbered.

Loops that change things are methods proved against functions; the laws are
lemmas about these functions. `dafny verify dfyconfig.toml` checks everything.

## Where the code does not keep the plain law

Each of these is modelled as the code is. For each, a contract says for all inputs
exactly when the law holds; where no failing input is plain from that condition, a
lemma or method names one.

- Deleting the empty key from a radix tree, when all other keys so far began with
  the same byte, merges the root with its only child and renames every key
  (`RadixTree.DeletingEmptyRenames`, exactly when: `RadixTree.Tree.Delete`).
- The DNS packer chains more pointers than its own unpacker follows
  (`DnsCompression.LongChainUnreadable`, exactly when: `DnsMessage.RecordsSurvive`
  and `DnsMessage.MessageSurvives`).
- A message marked as truncated, or with more than 65535 entries in a section, is
  packed whole and not read whole (`DnsMessage.MessageSurvives`).
- A question that is counted but not there is read as an empty one
  (`DnsNumbers.QuestionAtEnd`).
- A name whose last dot is escaped is accepted and loses its last label
  (`DnsMeaning.OpenLastLost`, exactly when: `DnsText.LastLostExactly`).
- A name with a dot in front is accepted and comes back as the root
  (`DnsMeaning.PlainExactly`).
- With escapes, the compression table confuses names
  (`DnsCompression.EscapesCollide`, exactly when: `DnsMeaning.NamesRead`, and for
  whole messages `DnsMessage.MessageSurvives`). It never does if no key stands for
  two names (`DnsMeaning.TellingNamesSurvive`), as when the compressed names are
  free of escapes (`DnsMeaning.EscapeFreeTelling`). That the packer fits its buffer
  and tells the true RDLENGTH does not depend on it.
- A pointer straight to the root is followed, but the end of the name that holds it
  is lost (`DnsName.UnpackDenoted`); no name that begins with a label is packed so.
- The type bitmap of a record whose first type is 256 or more cannot be read
  back (`DnsNsec.RoundTripExactly`).
- Punycode loses labels with hyphens (`Punycode.HyphenBreaksRoundTrip`, exactly
  when: `Punycode.RoundTripExactly`), and in 32-bit words the encoder panics on very
  long labels or writes something else (`PunycodeWords.LongLabelPanics`, exactly
  when: `PunycodeWords.Encode32Exactly`).
- Unknown protobuf fields whose keys are not in the shortest form are rewritten
  (`ProtoUnknown.LongKeyRewritten`, exactly when: `ProtoUnknown.SavedExactly`).
- The binc dictionary gives numbers away again after 65536 symbols
  (`BincSymbols.RoundTripExactly`), and plain strings of 65536 bytes and more are
  written with a count of another width than the decoder reads
  (`BincSymbols.PlainExactly`).
- `KeyWritePrefix` may refuse although every key under the prefix is writable
  (`Acl.WritePrefixMayRefuseMore`, exactly when: `Acl.WritePrefixExactly`).
- A question that ends in the letters of the agent's domain without a dot before
  it, or is the domain with a dot in front, is answered with nameserver names that
  do not resolve one by one (`AgentDns.JoinedNameLosesNumber`,
  `AgentDns.LeadingDotUnknown`, exactly when: `AgentDns.AdvertisedExactly`).
- For DS questions the topmost zone above a name is chosen, not the nearest
  (`DnsLabels.Match`).

## Model

| member | source | states |
|---|---|---|
| `Semaphore.StepKeepsInv` | agent/Godeps/_workspace/src/github.com/hashicorp/consul/api/semaphore.go:140-371 | every atomic step of every client, and every session death, keeps the invariant: an index names one lock version, the stored lock has at most Limit holders, and a live holder is listed in every version it can be pruned from |
| `Semaphore.RunKeepsInv` | agent/Godeps/_workspace/src/github.com/hashicorp/consul/api/semaphore.go:140-371 | the invariant holds after every run of any number of clients whose reads may be arbitrarily stale and whose replies may be lost |
| `Semaphore.AtMostLimitHold` | agent/Godeps/_workspace/src/github.com/hashicorp/consul/api/semaphore.go:183-245 | in every reachable state the stored lock has at most Limit holders, every live holder is among them, and at most Limit clients hold at once |
| `Semaphore.LimitOneExcludes` | agent/Godeps/_workspace/src/github.com/hashicorp/consul/api/semaphore.go:183-245 | with a limit of one, two live holders are the same client |
| `Semaphore.NewLockBounds` | agent/Godeps/_workspace/src/github.com/hashicorp/consul/api/semaphore.go:197-245 | the lock that a successful compare-and-set of Acquire installs has room for its new holder and drops no live one |
| `Semaphore.HolderNotPruned` | agent/Godeps/_workspace/src/github.com/hashicorp/consul/api/semaphore.go:444-459 | pruning with a stale snapshot never drops a live holder if the compare-and-set then succeeds |
| `Semaphore.StepRespectsLock` | agent/Godeps/_workspace/src/github.com/hashicorp/consul/api/semaphore.go:411-425 | no step changes the Limit of an existing lock, and only Destroy removes the lock, when nobody holds it |
| `Semaphore.LimitConstant` | agent/Godeps/_workspace/src/github.com/hashicorp/consul/api/semaphore.go:411-425 | the Limit is constant over every run through which the lock exists |
| `Semaphore.LimitConstantInRuns` | agent/Godeps/_workspace/src/github.com/hashicorp/consul/api/semaphore.go:411-425 | the same from any reachable state on |
| `Semaphore.DeletedLockHasNoLiveHolder` | agent/Godeps/_workspace/src/github.com/hashicorp/consul/api/semaphore.go:333-370 | when the delete of Destroy goes through there is no live holder |
| `Semaphore.DestroyRemovesOnlyUnusedLock` | agent/Godeps/_workspace/src/github.com/hashicorp/consul/api/semaphore.go:322-371 | in every run a lock disappears only in a Destroy step and only without live holders |
| `Semaphore.MonitorIsExact` | agent/Godeps/_workspace/src/github.com/hashicorp/consul/api/semaphore.go:463-482 | a current read by the monitor sees the slot of a client that holds one exactly while its contender entry is alive |
| `Semaphore.NoConflictBetweenClients` | agent/Godeps/_workspace/src/github.com/hashicorp/consul/api/semaphore.go:411-425 | what the clients store is never taken for a foreign or an undecodable entry, however old the read |
| `Semaphore.AcquireExactly` | agent/Godeps/_workspace/src/github.com/hashicorp/consul/api/semaphore.go:140-245 | from every reachable state, a client that acquires undisturbed with a current listing holds a slot afterwards if and only if there was no lock or one with its limit and room beside the live holders; otherwise it does not try |
| `SemaphoreRuns.AcquireStores` | agent/Godeps/_workspace/src/github.com/hashicorp/consul/api/semaphore.go:140-245 | and what Acquire then leaves: the client holds its slot, its entries in the store are its contender entry and the lock with its session added and the dead holders gone, and every other entry is unchanged |
| `SemaphoreRuns.WaitsOrGivesUp` | agent/Godeps/_workspace/src/github.com/hashicorp/consul/api/semaphore.go:196-226 | without a free slot the client waits if the limits agree and gives up if they do not; nothing is written |
| `SemaphoreRuns.RefusedRetries` | agent/Godeps/_workspace/src/github.com/hashicorp/consul/api/semaphore.go:229-237 | a compare-and-set that comes too late writes nothing, and Acquire and Release go back to their read |
| `SemaphoreRuns.ReleaseExactly` | agent/Godeps/_workspace/src/github.com/hashicorp/consul/api/semaphore.go:248-317 | from every reachable state a holder that releases undisturbed ends idle and not holding: its session is gone from the stored holders, its contender entry is deleted, the limit, the other holders and all other entries are unchanged; if it is not listed the lock stays as it is |
| `SemaphoreRuns.ReleaseMakesRoom` | agent/Godeps/_workspace/src/github.com/hashicorp/consul/api/semaphore.go:248-317 | after the release of a live holder every client of the same limit has room |
| `SemaphoreRuns.DestroyExactly` | agent/Godeps/_workspace/src/github.com/hashicorp/consul/api/semaphore.go:322-371 | an undisturbed Destroy with a current listing removes the lock if and only if there is one and none of its holders is alive, and touches nothing else |
| `SemaphoreRuns.DeathExactly` | agent/Godeps/_workspace/src/github.com/hashicorp/consul/api/semaphore.go:444-459 | a session that dies owns no entry any more, so that pruning drops it; all else stays |
| `Semaphore.FindLockPair` | agent/Godeps/_workspace/src/github.com/hashicorp/consul/api/semaphore.go:399-407 | the loop finds the lock entry of the listing, or the empty entry |
| `Semaphore.SemaphoreLock.PruneDeadHolders` | agent/Godeps/_workspace/src/github.com/hashicorp/consul/api/semaphore.go:444-459 | editing the holder map in place leaves exactly the holders whose session owns an entry |
| `Punycode.RoundTripExactly` | agent/Godeps/_workspace/src/github.com/miekg/dns/idn/punycode.go:142-268 | over unbounded numbers, decoding the encoding of a lower-case label gives the label back if and only if it is reversible: free of hyphens if it has a non-ASCII rune, and otherwise without the encoding prefix in front of digits that decode |
| `Punycode.HyphenFreeRoundTrip` | agent/Godeps/_workspace/src/github.com/miekg/dns/idn/punycode.go:142-268 | in particular for every label without a hyphen |
| `Punycode.HyphenBreaksRoundTrip` | agent/Godeps/_workspace/src/github.com/miekg/dns/idn/punycode.go:219-225 | a label with a hyphen that does not come back, because the decoder splits at the first delimiter |
| `Punycode.HyphenatedExtended` | agent/Godeps/_workspace/src/github.com/miekg/dns/idn/punycode.go:219-243 | a label with a hyphen and a non-ASCII rune never comes back: the decoder returns the encoded form as it is |
| `Punycode.AceLookalikeBreaksRoundTrip` | agent/Godeps/_workspace/src/github.com/miekg/dns/idn/punycode.go:158-160 | an ASCII label that looks encoded is left alone by the encoder and changed by the decoder |
| `Punycode.VarRoundTrip` | agent/Godeps/_workspace/src/github.com/miekg/dns/idn/punycode.go:188-199 | the digits of a delta are self-delimiting and decode to that delta under the same bias, whatever follows |
| `Punycode.DecodeDeltas` | agent/Godeps/_workspace/src/github.com/miekg/dns/idn/punycode.go:236-261 | encoder and decoder stay in step on n, delta and bias: from every intermediate state the decoder rebuilds the rest of the label |
| `PunycodeDigits.VarExactly` | agent/Godeps/_workspace/src/github.com/miekg/dns/idn/punycode.go:188-199 | what is written for a delta are the digits a-z and 0-9 in the form of section 6.2 of RFC 3492 that are worth it by section 3.3, with thresholds of 1 to 26 and base 36 |
| `PunycodeDigits.BiasExactly` | agent/Godeps/_workspace/src/github.com/miekg/dns/idn/punycode.go:92-105 | the bias behind a delta told by quotients: a 700th of the first delta or half of a later one, a share for the code points there are, divisions by 35 down to 455, 36 for each and a last fraction with skew 38 |
| `PunycodeDigits.LetterIs` | agent/Godeps/_workspace/src/github.com/miekg/dns/idn/punycode.go:81-89 | the digits 0 to 35 are written a to z and 0 to 9 |
| `PunycodeDigits.DigitExactly` | agent/Godeps/_workspace/src/github.com/miekg/dns/idn/punycode.go:66-78 | and read from these and from capital letters, and from nothing else |
| `PunycodeSamples.DeltaComes` | agent/Godeps/_workspace/src/github.com/miekg/dns/idn/punycode.go:182-205 | from any cell of the walk the next that is written is the delta of the smallest code point not yet met, at its first place |
| `PunycodeSamples.Buecher` | agent/Godeps/_workspace/src/github.com/miekg/dns/idn/punycode.go:142-268 | the label buecher, with u umlaut, is written xn--bcher-kva and read back |
| `PunycodeSamples.Kinpachi` | agent/Godeps/_workspace/src/github.com/miekg/dns/idn/punycode.go:142-268 | sample L of section 7.1 of RFC 3492, in lower case, is written xn--3b-ww4c5e180e575a65lsy2b and read back |
| `PunycodeSamples.Supiido` | agent/Godeps/_workspace/src/github.com/miekg/dns/idn/punycode.go:142-268 | and sample R is written xn--d9juau41awczczp |
| `Punycode.MalformedExactly` | agent/Godeps/_workspace/src/github.com/miekg/dns/idn/punycode.go:236-252 | the decoder's loop gives up exactly if some byte behind the delimiter is no digit |
| `Punycode.DeltaFitsRune` | agent/Godeps/_workspace/src/github.com/miekg/dns/idn/punycode.go:142-207 | no delta of a label of at most 1926 runes leaves the 32-bit range |
| `PunycodeWords.Encode32Exactly` | agent/Godeps/_workspace/src/github.com/miekg/dns/idn/punycode.go:142-207 | in words that wrap around, the encoder gives that encoding if and only if no delta outgrows 31 bits |
| `PunycodeWords.RoundTrip32` | agent/Godeps/_workspace/src/github.com/miekg/dns/idn/punycode.go:142-268 | a hyphen-free label is encoded in words, the decoder's cursor stays inside a word and the label comes back, if and only if each cursor with its delta fits 31 bits |
| `PunycodeWords.ShortLabelsFit` | agent/Godeps/_workspace/src/github.com/miekg/dns/idn/punycode.go:142-207 | as they do for every label of at most 1926 runes |
| `PunycodeWords.LongLabelPanics` | agent/Godeps/_workspace/src/github.com/miekg/dns/idn/punycode.go:80-89 | on 1927 to 3854 letters a and the last code point the encoder panics |
| `Punycode.Adapt` | agent/Godeps/_workspace/src/github.com/miekg/dns/idn/punycode.go:92-105 | the bias adaptation loop computes the new bias of section 6.1 of RFC 3492 |
| `Punycode.Next` | agent/Godeps/_workspace/src/github.com/miekg/dns/idn/punycode.go:108-119 | the smallest rune of the label that is not below the boundary, or its first rune if all are below |
| `Punycode.Preprune` | agent/Godeps/_workspace/src/github.com/miekg/dns/idn/punycode.go:123-128 | the lower-cased label |
| `Punycode.WriteDelta` | agent/Godeps/_workspace/src/github.com/miekg/dns/idn/punycode.go:188-199 | the loop appends exactly the digits of the delta |
| `Punycode.EncodePass` | agent/Godeps/_workspace/src/github.com/miekg/dns/idn/punycode.go:183-204 | one pass over the label writes the deltas of the runes equal to n and keeps delta and bias in step with the decoder |
| `Punycode.Encode` | agent/Godeps/_workspace/src/github.com/miekg/dns/idn/punycode.go:142-207 | the encoder's loops produce the encoding of the label, which is pinned down by `PunycodeDigits` and `PunycodeSamples` |
| `Punycode.ReadDelta` | agent/Godeps/_workspace/src/github.com/miekg/dns/idn/punycode.go:237-252 | the loop reads one delta or finds the digits malformed |
| `Punycode.Insert` | agent/Godeps/_workspace/src/github.com/miekg/dns/idn/punycode.go:253-260 | the decoder's insertion puts the rune at the place the cursor names |
| `Punycode.Decode` | agent/Godeps/_workspace/src/github.com/miekg/dns/idn/punycode.go:210-268 | the decoder's loops produce the decoding of the label, to which `Punycode.RoundTripExactly` ties that encoding |
| `DnsName.UnpackExactly` | agent/Godeps/_workspace/src/github.com/miekg/dns/msg.go:387-467 | on arbitrary bytes the unpacker succeeds if and only if the bytes mean a name through at most ten pointers |
| `DnsName.UnpackDenoted` | agent/Godeps/_workspace/src/github.com/miekg/dns/msg.go:391-466 | what it then gives: the escaped text, and the end of the name's own bytes, except that a pointer straight to the root loses that end; more than ten pointers are refused as such |
| `DnsName.UnpackDomainName` | agent/Godeps/_workspace/src/github.com/miekg/dns/msg.go:387-467 | the loop stops on every input, reads only inside the message and computes that result |
| `DnsName.AppendEscaped` | agent/Godeps/_workspace/src/github.com/miekg/dns/msg.go:411-438 | the loop over a label appends its escaped bytes and a dot |
| `DnsName.EscapeExactly` | agent/Godeps/_workspace/src/github.com/miekg/dns/msg.go:411-438 | how each byte is shown: behind a backslash, by a letter, by three decimal digits that are its value, or as it is |
| `DnsName.DenotesUnique` | agent/Godeps/_workspace/src/github.com/miekg/dns/msg.go:374-386 | the bytes at an offset mean at most one name, read through one chain of pointers |
| `DnsName.DenotesInLonger` | agent/Godeps/_workspace/src/github.com/miekg/dns/msg.go:374-386 | a name keeps its meaning and its end when bytes are added behind |
| `DnsName.WireDenotes` | agent/Godeps/_workspace/src/github.com/miekg/dns/msg.go:264-351 | the wire form of any labels of 1 to 63 bytes, anywhere in a message, means these labels |
| `DnsPack.ParseOfText` | agent/Godeps/_workspace/src/github.com/miekg/dns/msg.go:267-351 | escaped text parses back to the labels it came from, whatever bytes they hold |
| `DnsPack.PackWrites` | agent/Godeps/_workspace/src/github.com/miekg/dns/msg.go:233-369 | without compression a text packs if and only if its labels are acceptable and there is room, and then exactly their wire form is written; which fault it is otherwise |
| `DnsPack.WireTextWire` | agent/Godeps/_workspace/src/github.com/miekg/dns/msg.go:264-466 | wire to text to wire: every uncompressed name unpacks to a text that packs to the same bytes, in-place shifting of escapes included |
| `DnsPack.ShiftLeft` | agent/Godeps/_workspace/src/github.com/miekg/dns/msg.go:269-271 | shifting the live part of the buffer left in place, stale tail included |
| `DnsPack.UnescapeAt` | agent/Godeps/_workspace/src/github.com/miekg/dns/msg.go:268-291 | unescaping in place leaves the decoded byte and the unread text |
| `DnsPack.UnescapeExactly` | agent/Godeps/_workspace/src/github.com/miekg/dns/msg.go:274-288 | what a backslash and the bytes behind it are taken for: three digits by their value modulo 256, t, r and n, any other byte itself |
| `DnsPack.WriteLabel` | agent/Godeps/_workspace/src/github.com/miekg/dns/msg.go:308-322 | writes a counted label, as far as there is room |
| `DnsPack.WritePointer` | agent/Godeps/_workspace/src/github.com/miekg/dns/msg.go:357-361 | writes a 14-bit pointer |
| `DnsPack.EndLabel` | agent/Godeps/_workspace/src/github.com/miekg/dns/msg.go:295-349 | closing a label: the two refusals, the write, the lookup of the suffix, and the new table entry or the pointer |
| `DnsPack.PackDomainName` | agent/Godeps/_workspace/src/github.com/miekg/dns/msg.go:233-369 | the packer on every text, buffer and offset, offsets behind the buffer included, with every table of 14-bit offsets: message, table, end and fault are what the specification says, the unguarded final write included |
| `DnsMeaning.NamesRead` | agent/Godeps/_workspace/src/github.com/miekg/dns/msg.go:260-369 | after any sequence of names and other bytes packed with one table, escapes anywhere: what a name is read as, through how many pointers and where it ends follow from the texts and lengths alone; it is refused if there are more than ten, and comes back in full if and only if there are at most ten and its first known key means what is left of it or, if none is known, its last dot is not escaped |
| `DnsMeaning.TellingNamesSurvive` | agent/Godeps/_workspace/src/github.com/miekg/dns/msg.go:322-331 | if no table key of the texts stands for two different names, every name is read as the labels the packer takes from it, and in full if and only if its chain has at most ten pointers and its last dot is not escaped |
| `DnsMeaning.EscapeFreeTelling` | agent/Godeps/_workspace/src/github.com/miekg/dns/msg.go:322-331 | names without escapes have such keys |
| `DnsMeaning.NameReads` | agent/Godeps/_workspace/src/github.com/miekg/dns/msg.go:322-363 | one more name, whatever it holds: what stands where it was packed, its end, its chain, and what every key means afterwards |
| `DnsMeaning.LoopReads` | agent/Godeps/_workspace/src/github.com/miekg/dns/msg.go:265-351 | the same from every turn of the packer's loop, in-place unescaping and stale bytes included |
| `DnsMeaning.ReadExactly` | agent/Godeps/_workspace/src/github.com/miekg/dns/msg.go:322-331 | a name is read in full if and only if its first known key means what is left of it or, if none is known, no label is left open |
| `DnsText.LastLostExactly` | agent/Godeps/_workspace/src/github.com/miekg/dns/msg.go:265-351 | a text that ends in a dot loses its last label if and only if an odd number of backslashes stands before that dot; nothing else is lost |
| `DnsMeaning.OpenLastLost` | agent/Godeps/_workspace/src/github.com/miekg/dns/defaults.go:176-183 | the text b.a\. is accepted, compressed or not, and comes back as b. |
| `DnsMeaning.PlainExactly` | agent/Godeps/_workspace/src/github.com/miekg/dns/msg.go:264-351 | without compression every accepted text comes back in full if and only if it does not begin with a dot and its last dot is not escaped; with a dot in front the root comes back |
| `DnsMeaning.NamesSurvive` | agent/Godeps/_workspace/src/github.com/miekg/dns/msg.go:260-369 | in particular, a name without escapes among such names comes back as itself if its chain has at most ten pointers and is refused otherwise; every pointer leads back, at most one for each label |
| `DnsMeaning.ShortNamesReadable` | agent/Godeps/_workspace/src/github.com/miekg/dns/msg.go:451-456 | names of at most ten labels are then always readable |
| `DnsMeaning.AllTold` | agent/Godeps/_workspace/src/github.com/miekg/dns/msg.go:322-346 | after any sequence of names every table entry points below 2^14 at bytes that mean what was learnt of its key |
| `DnsMeaning.EarlierStays` | agent/Godeps/_workspace/src/github.com/miekg/dns/msg.go:322-369 | what has been packed is never overwritten by later names |
| `DnsCompression.PlainIsItsText` | agent/Godeps/_workspace/src/github.com/miekg/dns/msg.go:411-438 | a name of plain bytes is its own text, so unpacking gives the text that was packed |
| `DnsCompression.PlainBytes` | agent/Godeps/_workspace/src/github.com/miekg/dns/msg.go:411-438 | the bytes that stand in a text as they are: all that can be printed but eight |
| `DnsCompression.LongChainUnreadable` | agent/Godeps/_workspace/src/github.com/miekg/dns/msg.go:451-456 | the packer builds chains its own unpacker refuses: of a., a.a., a.a.a. and so on, the twelfth name and every later one |
| `DnsCompression.EscapesCollide` | agent/Godeps/_workspace/src/github.com/miekg/dns/msg.go:322-331 | two names with escapes share a table key because of the stale tail, and the second becomes a pointer to another name |
| `DnsMessage.RecordsSurvive` | agent/Godeps/_workspace/src/github.com/miekg/dns/msg.go:1357-1393 | every A, NS, SOA and SRV record of a message, in every buffer that begins with the packed bytes, stands where the texts and lengths say, and is read there with its true length, ending where the packer went on, if and only if none of its names has a chain of more than ten pointers, and refused otherwise; it is read whole if and only if, besides, each name is read in full |
| `DnsMessage.MessageSurvives` | agent/Godeps/_workspace/src/github.com/miekg/dns/msg.go:1472-1639 | a packed message is read back whole, header, questions and all records in sequence up to the packer's end, if and only if the counts fit sixteen bits, it is not marked truncated while it holds records, no chain has more than ten pointers and every name is read in full; chains and names follow from the texts and lengths; chains alone make the reader refuse it |
| `DnsMessage.ShallowIsShort` | agent/Godeps/_workspace/src/github.com/miekg/dns/msg.go:451-456 | no chain is too long without compression, or with names of at most ten labels and telling keys |
| `DnsMessage.EscapeFreeMessage` | agent/Godeps/_workspace/src/github.com/miekg/dns/msg.go:322-331 | no compression key stands for two names in a message without compression, or whose compressible names are free of escapes |
| `DnsMessage.TellingMessage` | agent/Godeps/_workspace/src/github.com/miekg/dns/msg.go:322-331 | in a message without such a key every name is read in full if and only if no last dot is escaped |
| `DnsNumbers.PlacesOfU16` | agent/Godeps/_workspace/src/github.com/miekg/dns/msg.go:760-767 | a number of two bytes is written by its places, the first byte most, and read as that number modulo 65536 |
| `DnsNumbers.PlacesOfU32` | agent/Godeps/_workspace/src/github.com/miekg/dns/msg.go:768-777 | so is one of four bytes |
| `DnsNumbers.LayoutExactly` | agent/Godeps/_workspace/src/github.com/miekg/dns/types.go:24-56 | the record types 1, 2, 6 and 33, and the fields of their data: which are names, which of these may be compressed, and how wide the numbers are |
| `DnsNumbers.RecordNumbers` | agent/Godeps/_workspace/src/github.com/miekg/dns/msg.go:1357-1393 | whenever a record of a packed message is read at all, its type, class, time to live, length and the numbers and addresses of its data are read as what they were, and its names if it is read whole |
| `DnsNumbers.MessageNumbers` | agent/Godeps/_workspace/src/github.com/miekg/dns/msg.go:1472-1639 | under the conditions of `DnsMessage.MessageSurvives` every name, number and address of the header, the questions and the records is read as what it was, field by field |
| `DnsNumbers.TruncatedIsBit` | agent/Godeps/_workspace/src/github.com/miekg/dns/types.go:156 | the mark of truncation is bit 9 of the flags |
| `DnsNumbers.QuestionAtEnd` | agent/Godeps/_workspace/src/github.com/miekg/dns/msg.go:1574-1639 | a question that is counted but not there is read as empty |
| `DnsNumbers.RecordAtEnd` | agent/Godeps/_workspace/src/github.com/miekg/dns/msg.go:1373-1393 | and a record that is not there is refused |
| `DnsRecord.RecordPacked` | agent/Godeps/_workspace/src/github.com/miekg/dns/msg.go:1357-1393 | the same for one record behind anything already packed, with the state it leaves |
| `DnsRecord.RdlengthIsTrue` | agent/Godeps/_workspace/src/github.com/miekg/dns/rawmsg.go:55-95 | the patched RDLENGTH is the number of bytes from the end of the header to the end of the record, for every well-formed owner name, with escapes and compression and whatever the table holds; PackRR fails exactly if a field does not fit or that number exceeds 16 bits |
| `DnsBuffer.MessageFits` | agent/Godeps/_workspace/src/github.com/miekg/dns/msg.go:1525-1570 | packing into the uncompressed length never fails and never writes outside, with or without compression, names with escapes included |
| `DnsBuffer.RecordFits` | agent/Godeps/_workspace/src/github.com/miekg/dns/msg.go:1357-1370 | a record fits into the length its len method counts |
| `DnsBuffer.NameFits` | agent/Godeps/_workspace/src/github.com/miekg/dns/msg.go:260-369 | a name is packed, compressed or not and with any escapes, into its text's length and one byte |
| `DnsRecord.WalkFinds` | agent/Godeps/_workspace/src/github.com/miekg/dns/rawmsg.go:60-83 | walking over bytes that mean a name ends at the name's own end, at the zero byte or behind the first pointer |
| `DnsRecord.NameWalks` | agent/Godeps/_workspace/src/github.com/miekg/dns/rawmsg.go:60-83 | walking over any packed name, with escapes and whatever the table holds, ends where the packer stopped |
| `DnsRecord.PartsPatched` | agent/Godeps/_workspace/src/github.com/miekg/dns/msg.go:1357-1370 | patching earlier bytes commutes with packing later fields |
| `DnsRecord.RecordRead` | agent/Godeps/_workspace/src/github.com/miekg/dns/msg.go:1373-1393 | a record that stands with its true length passes the length check of UnpackRR and is read if and only if its chains are short |
| `DnsRecord.SeenExactly` | agent/Godeps/_workspace/src/github.com/miekg/dns/msg.go:411-438 | what is read of the fields is what was meant if and only if every name is read in full |
| `DnsBuffer.SetRdlengthInPlace` | agent/Godeps/_workspace/src/github.com/miekg/dns/rawmsg.go:55-95 | the loop patches the length in place, or leaves the message alone |
| `DnsBuffer.PackPartsInPlace` | agent/Godeps/_workspace/src/github.com/miekg/dns/msg.go:587-835 | the fields of a record are packed one behind the other at any offset, sharing the table; what is left in message and table when one does not fit |
| `DnsBuffer.PackRRInPlace` | agent/Godeps/_workspace/src/github.com/miekg/dns/msg.go:1357-1370 | a record is packed and its length patched; what is left when it cannot be |
| `DnsBuffer.Len` | agent/Godeps/_workspace/src/github.com/miekg/dns/msg.go:1688-1747 | the loops add up the uncompressed length |
| `DnsBuffer.PackBuffer` | agent/Godeps/_workspace/src/github.com/miekg/dns/msg.go:1520-1571 | packs header, questions and sections in place into the given buffer or a new one of the uncompressed length and one, and never fails on acceptable names and data |
| `DnsNsec.RoundTripExactly` | agent/Godeps/_workspace/src/github.com/miekg/dns/msg.go:707-748 | a strictly ascending type list packed into zeros with room for its windows unpacks to itself if and only if it is empty or begins below 256; otherwise it is refused, since packing begins three bytes too far |
| `DnsNsec.PackExactly` | agent/Godeps/_workspace/src/github.com/miekg/dns/msg.go:707-748 | a strictly ascending list is packed if and only if there is room for its windows, and takes exactly that room |
| `DnsNsec.LoopPacks` | agent/Godeps/_workspace/src/github.com/miekg/dns/msg.go:720-742 | from every intermediate state the packing loop ends with windows that list exactly the types |
| `DnsNsec.UnpackWindows` | agent/Godeps/_workspace/src/github.com/miekg/dns/msg.go:1084-1144 | unpacking whole windows lists their types in order |
| `DnsNsec.PackBitmap` | agent/Godeps/_workspace/src/github.com/miekg/dns/msg.go:707-748 | the packing loop, in place |
| `DnsNsec.UnpackBitmap` | agent/Godeps/_workspace/src/github.com/miekg/dns/msg.go:1084-1144 | the unpacking loop |
| `DnsNsec.WalkBits` | agent/Godeps/_workspace/src/github.com/miekg/dns/msg.go:1111-1134 | the bits of an octet, most significant first |
| `DnsLabels.SplitExactly` | agent/Godeps/_workspace/src/github.com/miekg/dns/labels.go:107-123 | Split gives exactly the offsets behind unquoted dots, in order, for every name |
| `DnsLabels.NameRejoins` | agent/Godeps/_workspace/src/github.com/miekg/dns/labels.go:107-123 | the pieces between the label starts make up the name |
| `DnsLabels.Next` | agent/Godeps/_workspace/src/github.com/miekg/dns/labels.go:128-145 | the loop finds the next label start, with its toggling of quotes |
| `DnsLabels.SplitLabels` | agent/Godeps/_workspace/src/github.com/miekg/dns/labels.go:107-123 | the loop collects the label starts |
| `DnsLabels.CountLabel` | agent/Godeps/_workspace/src/github.com/miekg/dns/labels.go:88-101 | counts the label starts |
| `DnsLabels.SplitDomainName` | agent/Godeps/_workspace/src/github.com/miekg/dns/labels.go:10-38 | the labels are cut exactly at the dots before the label starts, the last one up to the final dot; joined with dots and with the final dot put back, they are the name |
| `DnsLabels.CompareDomainName` | agent/Godeps/_workspace/src/github.com/miekg/dns/labels.go:48-85 | the longest common suffix of labels |
| `DnsLabels.Match` | agent/Godeps/_workspace/src/github.com/miekg/dns/server.go:106-139 | the handler of the longest registered lower-case suffix, else of the root, else none; for DS the root's, else that of the shortest suffix |
| `Singleflight.RunKeepsInv` | agent/Godeps/_workspace/src/github.com/miekg/dns/singleinflight.go:33-57 | every interleaving of Do calls keeps the invariant on map, calls and callers |
| `Singleflight.StepInBounds` | agent/Godeps/_workspace/src/github.com/miekg/dns/singleinflight.go:33-57 | no step refers to a call that is not there |
| `Singleflight.OneRunsPerKey` | agent/Godeps/_workspace/src/github.com/miekg/dns/singleinflight.go:33-57 | at most one function runs for a key at a time |
| `Singleflight.ReturnsWhatWasShared` | agent/Godeps/_workspace/src/github.com/miekg/dns/singleinflight.go:33-57 | whoever returns has the result of the call it led or joined, made for its own key, and its shared flag is true exactly if another caller entered that call |
| `Singleflight.FinishedStays` | agent/Godeps/_workspace/src/github.com/miekg/dns/singleinflight.go:50-56 | a result never changes, and nobody joins a call that has left the map |
| `Singleflight.AloneExactly` | agent/Godeps/_workspace/src/github.com/miekg/dns/singleinflight.go:33-57 | a caller whom nobody disturbs and whose key is not in flight runs the function and returns its value, not shared, and leaves everything else as it was |
| `Singleflight.JoinsExactly` | agent/Godeps/_workspace/src/github.com/miekg/dns/singleinflight.go:33-57 | one that finds its key in flight joins, returns exactly when that call has its value, and returns it as shared |
| `Singleflight.NextStep` | agent/Godeps/_workspace/src/github.com/miekg/dns/singleinflight.go:33-57 | nobody is stuck: every caller has its next step, or waits for a function that is still running |
| `RadixTree.Tree.Get` | agent/Godeps/_workspace/src/github.com/armon/go-radix/radix.go:275-301 | the value the map holds under the key |
| `RadixTree.Tree.Insert` | agent/Godeps/_workspace/src/github.com/armon/go-radix/radix.go:135-225 | on every tree: the map gains the key with a leaf of that name, or the value of its leaf is replaced; the old value is returned and size counted |
| `RadixTree.Tree.Delete` | agent/Godeps/_workspace/src/github.com/armon/go-radix/radix.go:229-271 | on every tree: the old value is returned; the map loses the key and nothing else if and only if it is not the empty key of a tree whose other keys so far began with one byte, or nothing else is stored; otherwise every key loses its common front, and the root has the bytes that come behind it |
| `RadixTree.Tree.LongestPrefix` | agent/Godeps/_workspace/src/github.com/armon/go-radix/radix.go:305-337 | on every tree: the leaf under the longest key that is a prefix of the query, or none if there is none |
| `RadixTree.Tree.WalkPrefix` | agent/Godeps/_workspace/src/github.com/armon/go-radix/radix.go:378-407 | on every tree: visits the leaves under the prefix in byte order of their keys, all of them up to the first on which the callback stops |
| `RadixTree.Tree.RecursiveWalk` | agent/Godeps/_workspace/src/github.com/armon/go-radix/radix.go:411-424 | the same for the subtree of a node, empty nodes left by Delete included |
| `RadixTree.Tree.SplitAt` | agent/Godeps/_workspace/src/github.com/armon/go-radix/radix.go:184-222 | splitting an edge adds the key and loses none |
| `RadixTree.Tree.StoreAt` | agent/Godeps/_workspace/src/github.com/armon/go-radix/radix.go:140-175 | replacing a leaf or adding an edge stores the key |
| `RadixTree.Tree.MergeIfSingle` | agent/Godeps/_workspace/src/github.com/armon/go-radix/radix.go:258-269 | merging a node with its only child leaves the map alone, except at the root |
| `RadixTree.DeletingEmptyRenames` | agent/Godeps/_workspace/src/github.com/armon/go-radix/radix.go:229-271 | of the keys "" and "a" the first is deleted: the value of the second is then found under "" only |
| `RadixTree.StoredIsUpdate` | agent/Godeps/_workspace/src/github.com/armon/go-radix/radix.go:135-225 | as a map from keys to values, Insert is an update and Delete a removal, and leaves stay under their own names |
| `RadixTree.StrippedNames` | agent/Godeps/_workspace/src/github.com/armon/go-radix/radix.go:262-269 | behind a merge of the root no leaf is found under its own name |
| `RadixShape.HeadsAreEdges` | agent/Godeps/_workspace/src/github.com/armon/go-radix/radix.go:59-68 | the root has one edge for each first byte of the keys so far |
| `RadixTree.Search` | agent/Godeps/_workspace/src/github.com/armon/go-radix/radix.go:59-68 | binary search finds the place of a tag among the sorted edges |
| `RadixTree.IndexOf` | agent/Godeps/_workspace/src/github.com/armon/go-radix/radix.go:47-57 | replaceEdge finds the edge it replaces and never panics |
| `RadixTree.LongestCommon` | agent/Godeps/_workspace/src/github.com/armon/go-radix/radix.go:119-131 | the length of the longest common prefix |
| `RadixShape.SplitOk` | agent/Godeps/_workspace/src/github.com/armon/go-radix/radix.go:184-199 | splitting keeps the shape of a path-compressed trie |
| `RadixShape.MergedOk` | agent/Godeps/_workspace/src/github.com/armon/go-radix/radix.go:258-269 | so does merging below the root |
| `RadixShape.StrippedDiffers` | agent/Godeps/_workspace/src/github.com/armon/go-radix/radix.go:262-269 | merging into the root changes what is stored, unless nothing is stored |
| `RadixShape.StrippedSize` | agent/Godeps/_workspace/src/github.com/armon/go-radix/radix.go:262-269 | though it keeps the number of keys |
| `Acl.WritePrefixCovers` | agent/Godeps/_workspace/src/github.com/hashicorp/consul/acl/acl.go:182-229 | through any chain of parents, KeyWritePrefix of a prefix means KeyWrite of every key under it |
| `Acl.WritePrefixExactly` | agent/Godeps/_workspace/src/github.com/hashicorp/consul/acl/acl.go:199-229 | KeyWritePrefix holds if and only if every key under the prefix is writable and, where no rule covers the prefix itself, the parent grants the prefix |
| `Acl.WritePrefixMayRefuseMore` | agent/Godeps/_workspace/src/github.com/hashicorp/consul/acl/acl.go:199-229 | a policy under which every key is writable and KeyWritePrefix still refuses |
| `Acl.WriteImpliesRead` | agent/Godeps/_workspace/src/github.com/hashicorp/consul/acl/acl.go:163-196 | KeyWrite implies KeyRead through any chain |
| `Acl.ServiceWriteImpliesRead` | agent/Godeps/_workspace/src/github.com/hashicorp/consul/acl/acl.go:232-271 | ServiceWrite implies ServiceRead through any chain |
| `Acl.LongestMatch` | agent/Godeps/_workspace/src/github.com/hashicorp/consul/acl/acl.go:163-179 | the longest stored prefix found in the tree carries the rule that decides |
| `Acl.LoadKeys` | agent/Godeps/_workspace/src/github.com/hashicorp/consul/acl/acl.go:143-154 | loading the rules fills the tree with the last rule for each prefix |
| `Acl.LoadServices` | agent/Godeps/_workspace/src/github.com/hashicorp/consul/acl/acl.go:155-160 | and the map with the last rule for each service |
| `Acl.PolicyAcl.MayReadKey` | agent/Godeps/_workspace/src/github.com/hashicorp/consul/acl/acl.go:163-179 | the tree lookup answers KeyRead of the compiled policy |
| `Acl.PolicyAcl.MayWriteKey` | agent/Godeps/_workspace/src/github.com/hashicorp/consul/acl/acl.go:182-196 | and KeyWrite |
| `Acl.PolicyAcl.MayWritePrefix` | agent/Godeps/_workspace/src/github.com/hashicorp/consul/acl/acl.go:199-229 | the walk with its deny flag answers KeyWritePrefix |
| `AclLines.LoadedStanding` | agent/Godeps/_workspace/src/github.com/hashicorp/consul/acl/acl.go:143-160 | of the rules with one name the last one is loaded |
| `AclLines.KeyRule` | agent/Godeps/_workspace/src/github.com/hashicorp/consul/acl/acl.go:163-192 | the rule that decides about a key is the standing one with the longest prefix |
| `AclLines.ServiceRuleIs` | agent/Godeps/_workspace/src/github.com/hashicorp/consul/acl/acl.go:232-258 | and about a service the exact one before the catch-all |
| `AclLines.CompiledAnswers` | agent/Godeps/_workspace/src/github.com/hashicorp/consul/acl/acl.go:162-281 | a policy compiled over a list answers as the line of policies says: the nearest policy with a deciding rule counts, read grants reading only, write both, anything else neither; without one the root decides, and about managing the root alone |
| `AclLines.UnreachedKey` | agent/Godeps/_workspace/src/github.com/hashicorp/consul/acl/acl.go:62-96 | a key that no rule reaches is refused over deny and granted over allow and manage |
| `AclLines.UnreachedService` | agent/Godeps/_workspace/src/github.com/hashicorp/consul/acl/acl.go:62-96 | and so is a service |
| `Lru.Cache.Get` | agent/Godeps/_workspace/src/github.com/hashicorp/golang-lru/lru.go:71-80 | the value of the key, which becomes the most recently used; map and list stay in bijection |
| `Lru.Cache.Add` | agent/Godeps/_workspace/src/github.com/hashicorp/golang-lru/lru.go:48-68 | the entry comes to the front and the least recently used one is evicted beyond the size |
| `Lru.Cache.Remove` | agent/Godeps/_workspace/src/github.com/hashicorp/golang-lru/lru.go:83-90 | exactly that key is gone |
| `Lru.Cache.RemoveOldest` | agent/Godeps/_workspace/src/github.com/hashicorp/golang-lru/lru.go:93-112 | on every cache, the empty one included: exactly the least recently used entry is gone |
| `Lru.Cache.Purge` | agent/Godeps/_workspace/src/github.com/hashicorp/golang-lru/lru.go:40-45 | nothing is left |
| `Lru.AfterAddMembers` | agent/Godeps/_workspace/src/github.com/hashicorp/golang-lru/lru.go:48-68 | after an addition the new entry is there and every other entry was there before |
| `AclCache.Cache.GetAcl` | agent/Godeps/_workspace/src/github.com/hashicorp/consul/acl/cache.go:103-152 | whatever the three caches hold or have evicted, the answer is the one of uncached faulting, parsing and compiling: a list that answers as the policies from the identifier down to its root say, or the first error on the way |
| `AclCache.ListMeans` | agent/Godeps/_workspace/src/github.com/hashicorp/consul/acl/cache.go:103-152 | without a cache there is a list exactly if the parents can be followed down to allow, deny or manage, every other identifier being faulted, and then it answers as the policies met say |
| `AclCache.Cache.GetAclPolicy` | agent/Godeps/_workspace/src/github.com/hashicorp/consul/acl/cache.go:81-99 | the same for the policy of an identifier |
| `AclCache.Cache.GetPolicyFor` | agent/Godeps/_workspace/src/github.com/hashicorp/consul/acl/cache.go:48-67 | the same for the policy of rules |
| `AclCache.Cache.ClearAcl` | agent/Godeps/_workspace/src/github.com/hashicorp/consul/acl/cache.go:155-157 | exactly that identifier is dropped, and every later answer stays right |
| `AclCache.Cache.Purge` | agent/Godeps/_workspace/src/github.com/hashicorp/consul/acl/cache.go:160-164 | the identifiers are dropped, and every later answer stays right |
| `AclCache.PolicyIdInjective` | agent/Godeps/_workspace/src/github.com/hashicorp/consul/acl/cache.go:75-77 | parent and rule digest can be told apart in the key of a compiled policy |
| `AclCache.PolicyEntryFits` | agent/Godeps/_workspace/src/github.com/hashicorp/consul/acl/cache.go:103-152 | a policy compiled from rules over a parent is right for every rules with the same digest, and may be kept under both |
| `ProtoWire.VarintReadsBack` | agent/Godeps/_workspace/src/code.google.com/p/goprotobuf/proto/encode.go:99-117 | a varint reads back wherever it stands |
| `ProtoWire.ReadVarintExactly` | agent/Godeps/_workspace/src/code.google.com/p/goprotobuf/proto/decode.go:81-104 | a varint is read exactly where one stands, shortest or not, with its value modulo 2^64 |
| `ProtoWire.DecodeVarintAt` | agent/Godeps/_workspace/src/code.google.com/p/goprotobuf/proto/decode.go:81-104 | the shifting loop computes that value |
| `ProtoWire.SizeVarint` | agent/Godeps/_workspace/src/code.google.com/p/goprotobuf/proto/encode.go:108-117 | the number of bytes the encoder writes |
| `ProtoWire.RawReadsBack` | agent/Godeps/_workspace/src/code.google.com/p/goprotobuf/proto/decode.go:178-204 | counted bytes read back |
| `ProtoWire.SkipExactly` | agent/Godeps/_workspace/src/code.google.com/p/goprotobuf/proto/decode.go:246-280 | skip ends at j if and only if the bytes up to j are one well-formed value of the wire type, groups of any depth included |
| `ProtoWire.SkipElsewhere` | agent/Godeps/_workspace/src/code.google.com/p/goprotobuf/proto/decode.go:246-280 | a value is skipped alike wherever it stands |
| `ProtoWire.Buffer.EncodeVarint` | agent/Godeps/_workspace/src/code.google.com/p/goprotobuf/proto/encode.go:99-106 | the loop appends the varint |
| `ProtoWire.Buffer.DecodeRawBytes` | agent/Godeps/_workspace/src/code.google.com/p/goprotobuf/proto/decode.go:178-204 | reads counted bytes and advances behind them |
| `ProtoWire.Buffer.SkipValue` | agent/Godeps/_workspace/src/code.google.com/p/goprotobuf/proto/decode.go:246-280 | the recursive loop consumes exactly that value |
| `ProtoMessage.EncStruct` | agent/Godeps/_workspace/src/code.google.com/p/goprotobuf/proto/encode.go:949-979 | appends exactly the wire form of the message, for trees of any depth; fails exactly on a nil element of a repeated field, and never touches earlier bytes |
| `ProtoMessage.EncLenStruct` | agent/Godeps/_workspace/src/code.google.com/p/goprotobuf/proto/encode.go:1001-1026 | reserving four bytes, writing and moving leaves the earlier bytes, the length as a varint and the body |
| `ProtoMessage.MoveBehindLength` | agent/Godeps/_workspace/src/code.google.com/p/goprotobuf/proto/encode.go:1009-1025 | the move in both directions, through the array behind the slice |
| `ProtoMessage.EncGroup` | agent/Godeps/_workspace/src/code.google.com/p/goprotobuf/proto/encode.go:457-472 | a group between its two keys |
| `ProtoMessage.EncPackedField` | agent/Godeps/_workspace/src/code.google.com/p/goprotobuf/proto/encode.go:726-742 | a packed field with its counted body |
| `ProtoMessage.SizeStruct` | agent/Godeps/_workspace/src/code.google.com/p/goprotobuf/proto/encode.go:981-996 | the size calculator gives the number of bytes encoding appends; for messages with nil elements, what it counts up to them |
| `ProtoMessage.SizeIsLength` | agent/Godeps/_workspace/src/code.google.com/p/goprotobuf/proto/encode.go:981-996 | counting all keys first and then every body gives the length of the encoding, for trees of any depth without nil elements |
| `ProtoMessage.SizeOthers` | agent/Godeps/_workspace/src/code.google.com/p/goprotobuf/proto/encode.go:845-869 | for repeated messages, groups, strings and bytes, with all keys counted first and bodies up to a nil element |
| `ProtoMessage.SizePacked` | agent/Godeps/_workspace/src/code.google.com/p/goprotobuf/proto/encode.go:744-763 | for packed fields |
| `ProtoBytes.ElemWritten` | agent/Godeps/_workspace/src/code.google.com/p/goprotobuf/proto/encode.go:357-472 | the bytes of one value with its key, by its kind: the tag times eight and the number of the wire type as a varint, then a varint, 4 or 8 bytes, or counted bytes; a group between its two keys |
| `ProtoBytes.PackedWritten` | agent/Godeps/_workspace/src/code.google.com/p/goprotobuf/proto/encode.go:726-742 | and of packed numbers: behind one key and their length |
| `ProtoBytes.FixedPlaces` | agent/Godeps/_workspace/src/code.google.com/p/goprotobuf/proto/encode.go:122-151 | the bytes of fixed numbers by the values of their places, the first byte least |
| `ProtoBytes.VarintPlaces` | agent/Godeps/_workspace/src/code.google.com/p/goprotobuf/proto/encode.go:99-106 | the bytes of a varint: seven bits each, low ones first, and an eighth bit in all but the last |
| `ProtoBytes.VarintRead` | agent/Godeps/_workspace/src/code.google.com/p/goprotobuf/proto/decode.go:81-104 | a varint is read to its first byte below 128, modulo 2 to the power of 64; ten bytes without one are too many, fewer end too early |
| `ProtoBytes.RawRead` | agent/Godeps/_workspace/src/code.google.com/p/goprotobuf/proto/decode.go:178-204 | counted bytes are refused for a count that is negative in 64 bits with a sign, or that the buffer does not hold |
| `ProtoBytes.Skipped` | agent/Godeps/_workspace/src/code.google.com/p/goprotobuf/proto/decode.go:246-280 | what is skipped by the number of the wire type |
| `ProtoDecode.DecodeOfEncode` | agent/Godeps/_workspace/src/code.google.com/p/goprotobuf/proto/decode.go:344-437 | decoding the encoding of any message of any type gives the message back, saved unknown fields included |
| `ProtoDecode.StructDecodes` | agent/Godeps/_workspace/src/code.google.com/p/goprotobuf/proto/decode.go:344-437 | the same for a struct anywhere in a buffer, as a message or as a group |
| `ProtoDecode.ReencodingIsStable` | agent/Godeps/_workspace/src/code.google.com/p/goprotobuf/proto/decode.go:344-437 | every accepted byte string, in whatever form, gives a message whose encoding decodes to the same message |
| `ProtoDecode.UnmarshalSound` | agent/Godeps/_workspace/src/code.google.com/p/goprotobuf/proto/decode.go:344-437 | decoding gives only messages that fit their type, without nil elements, and with well-formed saved fields |
| `ProtoUnknown.SavedExactly` | agent/Godeps/_workspace/src/code.google.com/p/goprotobuf/proto/decode.go:219-243 | of every accepted input, known and unknown fields in any order and at any level: the saved bytes are the unknown fields in their order with shortest keys, and they are the fields' own bytes if and only if every such key was shortest |
| `ProtoUnknown.UnknownReencoded` | agent/Godeps/_workspace/src/code.google.com/p/goprotobuf/proto/decode.go:219-243 | decoding and encoding again ends in the original bytes of the unknown fields if and only if their keys were shortest |
| `ProtoUnknown.LongKeyRewritten` | agent/Godeps/_workspace/src/code.google.com/p/goprotobuf/proto/decode.go:219-243 | an input whose unknown field is saved with another key than it had |
| `ProtoUnknown.VarintIsShortest` | agent/Godeps/_workspace/src/code.google.com/p/goprotobuf/proto/encode.go:99-106 | the encoder never writes a longer varint than the one that was read |
| `ProtoDecode.UnmarshalType` | agent/Godeps/_workspace/src/code.google.com/p/goprotobuf/proto/decode.go:344-437 | the decoding loop, on every input, gives what the specification says and puts the buffer back |
| `ProtoDecode.DecMessage` | agent/Godeps/_workspace/src/code.google.com/p/goprotobuf/proto/decode.go:647-677 | a nested message is decoded from its own bytes, with the buffer exchanged and restored |
| `BincSymbols.RoundTripExactly` | agent/Godeps/_workspace/src/github.com/hashicorp/go-msgpack/codec/binc.go:196-261 | a stream of strings decodes to itself if and only if no string is repeated after 65536 new symbols have come since its first appearance |
| `BincSymbols.FewSymbolsLive` | agent/Godeps/_workspace/src/github.com/hashicorp/go-msgpack/codec/binc.go:196-261 | in particular for every stream of at most 65536 different symbols |
| `BincSymbols.EncoderNumbers` | agent/Godeps/_workspace/src/github.com/hashicorp/go-msgpack/codec/binc.go:217-231 | after every stream the encoder's dictionary numbers the symbols by their first appearance |
| `BincSymbols.KnownAt` | agent/Godeps/_workspace/src/github.com/hashicorp/go-msgpack/codec/binc.go:576-621 | what the decoder has under a number: the last symbol given that number |
| `BincSymbols.Encoder.Symbol` | agent/Godeps/_workspace/src/github.com/hashicorp/go-msgpack/codec/binc.go:196-261 | the encoder's dictionary, counter and output after one symbol |
| `BincSymbols.Decoder.String` | agent/Godeps/_workspace/src/github.com/hashicorp/go-msgpack/codec/binc.go:569-621 | the decoder's dictionary and position after one string, byte array or symbol, on every input |
| `BincSymbols.Encoder.Plain` | agent/Godeps/_workspace/src/github.com/hashicorp/go-msgpack/codec/binc.go:188-194 | a plain string behind its count |
| `BincSymbols.PlainExactly` | agent/Godeps/_workspace/src/github.com/hashicorp/go-msgpack/codec/binc.go:262-303 | a plain string or byte array is read back if and only if it is shorter than 65536 bytes; a longer one comes out shorter |
| `BincBytes.PlainBytes` | agent/Godeps/_workspace/src/github.com/hashicorp/go-msgpack/codec/binc.go:263-303 | the bytes of a plain string or byte array: a descriptor with a small count, or one telling a count of 1, 2, 4 or 8 bytes |
| `BincBytes.PlainRead` | agent/Godeps/_workspace/src/github.com/hashicorp/go-msgpack/codec/binc.go:569-581 | how such bytes are read: a count in the descriptor, or in one byte more than it says |
| `BincBytes.OldBytes` | agent/Godeps/_workspace/src/github.com/hashicorp/go-msgpack/codec/binc.go:196-261 | the bytes of a short symbol, and of one that is known: its number in one byte or two |
| `BincBytes.NewBytes` | agent/Godeps/_workspace/src/github.com/hashicorp/go-msgpack/codec/binc.go:196-261 | the bytes of a new symbol: descriptor, number, count and string |
| `BincBytes.SymbolRead` | agent/Godeps/_workspace/src/github.com/hashicorp/go-msgpack/codec/binc.go:582-615 | what the descriptors 0xB0 to 0xBF are read as |
| `BincBytes.BigEndianPlaces` | agent/Godeps/_workspace/src/github.com/hashicorp/go-msgpack/codec/binc.go:196-261 | the numbers by the values of their places |
| `AgentDns.AdvertisedResolves` | agent/dns.go:111-143 | asking for the address of the i-th nameserver a zone advertises gives one record, for the i-th server of the sorted list; beyond the list there is none |
| `AgentDns.AdvertisedExactly` | agent/dns.go:54-143 | for every name answered with a list: each advertised name resolves to its own server only, if and only if there are none, or the domain stands behind a dot beyond the first byte, or the name does not begin with the dotted domain and begins with the domain or has one server |
| `AgentDns.AdvertisedAnswer` | agent/dns.go:111-147 | the answer for each advertised name by the form of the question: one server, a name error, or every server |
| `AgentDns.TrimBehindLabel` | agent/dns.go:64-68 | what is left of a name with one more label in front |
| `AgentDns.ZoneAdvertises` | agent/dns.go:126-133 | the NS answer to every name that asks for a list has the sorted servers of its zone under their numbers |
| `AgentDns.TrimKeeps` | agent/dns.go:64-68 | the part in front of the domain is kept whole |
| `AgentDns.JoinedNameLosesNumber` | agent/dns.go:54-68 | the name xio. under the domain io. is served like the domain, and its first advertised name is answered by every server |
| `AgentDns.LeadingDotUnknown` | agent/dns.go:64-73 | the name .io. is answered with a list whose first name is unknown |
| `AgentDns.ListServers` | agent/dns.go:127-132 | the loop numbers and lists the servers |
| `AgentDns.AnswerService` | agent/dns.go:82-109 | the loop answers a question about a service with its instances |
| `AgentDns.ServeQuestion` | agent/dns.go:53-80 | one question is dispatched by the part of its name in front of the domain |
| `AgentQuestions.ServiceQuestionExactly` | agent/dns.go:26 | the pattern of services matches exactly four labels of letters, digits and hyphens and a zone of two letters or digits, joined by dots |
| `AgentQuestions.ServerQuestionExactly` | agent/dns.go:27 | and that of servers a zone or nothing, alone or behind ns and digits |
| `AgentQuestions.InfoExactly` | agent/types.go:59-107 | an address is taken apart into its service, job, environment, product and zone, and exactly those strings are addresses |
| `AgentQuestions.ServerParsed` | agent/dns.go:149-163 | a question about servers is taken apart into its number and its zone |
| `AgentQuestions.FrontIsKept` | agent/dns.go:55-67 | the part in front of the domain, behind its last dot, is what is dispatched on |
| `AgentQuestions.FrontOfName` | agent/dns.go:55-67 | as it is for any name put in front of the domain |
| `AgentQuestions.ServiceAnswer` | agent/dns.go:69-109 | a question about a service: A gives the address of every instance in order, SRV its port and its host with a final dot, no instances a name error, a failing store a server failure, other types an empty success |
| `AgentQuestions.ServerAnswer` | agent/dns.go:111-147 | a question about servers: the whole list under its numbers, or the one server of that number; a number too large is a name error, one beyond the list, an NS question with a number and other types are an empty success, a failing store is a server failure |
| `AgentQuestions.UnknownAnswer` | agent/dns.go:69-77 | a name of neither form is answered with a name error and an SOA record |
| `AgentQuestions.OutsideAnswer` | agent/dns.go:55-59 | a name outside the domain with a name error, without authority |
| `AgentDns.AnswerServers` | agent/dns.go:111-145 | the answer to a question about servers |

## Left out

- The HTTP and Consul API around the semaphore (`kv.go`, `session.go`, `lock.go`): only the meaning of list, compare-and-set, delete and session death is modelled; waiting and back-off are left out, since a step may happen at any time.
- The semaphore's JSON encoding is taken as the identity, and every Semaphore object is taken to have its own session.
- The semaphore's methods are steps of a state machine with program counters, not one method with jumps.
- Punycode's UTF-8 conversion, the splitting of a name into labels around `encode` and `decode`, and the wrap-around of the decoder's numbers on input that is no encoding of a label that fits.
- DnsPack.PackDomainName: packing with no buffer, which only computes a length, and tables with offsets of more than 14 bits, which the packer itself never makes, are not modelled.
- DnsMeaning.NamesRead: names end in a dot and do not begin with one, or are the root; what becomes of the others without compression is in `DnsMeaning.PlainExactly`.
- DnsBuffer.MessageFits: the labels that dots close have 1 to 63 bytes, and the data of a record is at most 65535 bytes without compression; anything else the packer may refuse.
- DnsBuffer.PackPartsInPlace: reflection over struct tags is replaced by a list of fields, and record types other than A, NS, SOA and SRV are refused by the reader.
- The compressed message length, which is an estimate, the extended response code of EDNS, and the setting of single header flags, which are one number here.
- DNSSEC, TSIG, zone transfer, the zone-file scanner, sockets, timeouts and metrics.
- Singleflight.RunKeepsInv: a function that panics, and the round-trip time returned beside the value.
- The radix tree's leaf objects are values, edges are a sequence sorted by insertion where the source sorts, and Minimum and Maximum are left out.
- The LRU's list elements are entries of a sequence; the identity of the list's element pointers and the mutexes are not modelled.
- The ACL cache's fault function is fixed, parents are acyclic, and equal digests mean equal rules; parsing is an arbitrary function.
- Protobuf: required fields, extensions, custom marshalers, zigzag numbers, truncation to 32 bits, text format and reflection; numbers are the words handed to the value encoders.
- The other values of binc: numbers, times, arrays and maps.
- AgentDns.AdvertisedResolves: the store does not change between the questions and the sort gives the same list each time; truncation of UDP answers, messages with several questions and the SOA record's contents are left out.
