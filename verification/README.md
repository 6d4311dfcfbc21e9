# Teapot, verified

A Dafny model of the parts of Teapot whose correctness is hardest to see from the code: the LDAP codec and its
framing, the linearization of UI dependencies, the replicated Postgres cache, the LDAP directory with its stores,
the disk cache in front of S3, the reconciliation of routes, and the LDAP connection pool. `dafny verify
dfyconfig.toml` checks all of it.

Code that works step by step is modelled by methods and classes with loops, fields and buffers, each proved against a
specification function or predicate; the results about runs, round trips and equivalences are lemmas about those
specifications.

- **Codec** (`BerInteger`, `Ber`, `Cursor`, `Ldap`, `LdapWrite`, `LdapRead`, `LdapTheory`, `X690`, `Rfc4511`,
  `WireTheory`, `WireReading`, `OpReading`). `Ber` has the trees of X.690 elements, their encoding and a reference
  parser. `Cursor.Bytes` is the shared buffer with its offset: reading moves to the end of a slice, writing goes
  backwards from the end of the buffer. `LdapWrite` and `LdapRead` follow the code field by field; `LdapTheory`
  proves when decoding inverts encoding. `X690` and `Rfc4511` write the two standards down once more, in octets and
  apart from the code's tables; the last three modules prove that exactly this is written and accepted. A panic of
  the code, which the caller recovers, is a failed decoding.
- **Framing** (`Framing`). The second header parser, which cuts a stream into messages.
- **Linearization** (`Linearize`, `LinearizeMemo`). Kahn's algorithm with counting maps and a queue, and the memo.
- **Replicated cache** (`SortedMaps`, `Replica`, `Convergence`). The copy-on-write index; the transaction log,
  merged notices and refetching; and a transition system of one reading replica next to any number of writers, in
  which announcing, committing, and the parts of handling a notice are separate steps.
- **Directory** (`Text`, `Names`, `NameSyntax`, `DirectoryStore`, `Directory`, `DirectoryTree`, `Membership`,
  `MembershipRuns`, `AddTheory`, `ModifyTheory`, `Witnesses`, `Answers`, `BottinServer`, `FilterMatch`). Names and
  their string keys; the two stores, where the attributes of an entry are a heap object that a listing shares with
  the store; the operations, each with its answer, the changes of its one transaction and what it edits in place
  before; and the service class that runs them. `Witnesses` has runs from an empty store on which promises fail;
  `Answers` has the tables of answers of Add, Del and Modify.
- **Calendars** (`CalendarStore`). Listing by prefix and listing by range.
- **Disk cache** (`DiskCache`). Metadata and data files with a record of every disk state; any step may fail.
- **Routes** (`RouteReconciliation`) and **connection pool** (`ConnectionPool`), the latter as a transition system.

## Where the code differs from what it says or should do

These are stated as lemmas, with the exact condition where there is one.

- An `extensibleMatch` filter without `dnAttributes` is written without the field and read as if it were mandatory
  (`LdapTheory.RoundTrip`).
- The decoder takes substrings in any order and extensible matches with neither rule nor type
  (`LdapTheory.AcceptedStandard`, `LdapTheory.DisorderAccepted`).
- The comment at `service/bottin/store/types.go:121-123` takes a string prefix for a parent; siblings show that it
  is not enough (`Names.StringPrefixMisleads`, `Names.PrefixOnKeys`). For the same reason Del refuses some leaves
  (`DirectoryTree.LeafRefused`, `Witnesses.SiblingBlocks`).
- Names with slashes can share a key (`DirectoryStore.SlashedNamesDisagree`).
- Removing a membership gives up when the list left is as long as the name of the entry it belongs to has
  components, and a deleted entry that was its own member is written again. `Membership.DelKeepsInverseIff` says
  exactly when a Del still leaves member and memberof inverse; `Witnesses.EarlyReturnDangles` is a run on which it
  does not.
- A listed entry shares its attribute map with the store, so updates of memberships are seen before the transaction
  is committed, and those made before a failure stay. The methods of `BottinServer.Bottin` state the whole store
  with them. From a state with inverse relations no operation fails half-way (`Membership.AddCompletes`,
  `Membership.DelKeepsInverse`, `MembershipRuns.ModifyKeepsInverse`).
- Modify keeps only the attributes it touches, memberof not among them, and loses the edit of a group that becomes
  its own member (`ModifyTheory.ModifyForgets`, `ModifyTheory.ModifyStores`; for runs,
  `Witnesses.ModifyLosesObjectClass` and `Witnesses.ModifyLosesItself`). `MembershipRuns.ModifyKeepsInverse` says
  when the relations survive it.
- The notice of a transaction goes out before its commit, and a fetch in between may be stale
  (`Convergence.EarlyFetchEnds`, `Convergence.StaleWhenHandledEarly`).
- Reclaiming space counts what it frees downwards, so it evicts everything (`DiskCache.S3Cache.ReclaimSpace`).
- The memo of the linearization joins names with commas (`LinearizeMemo.SharesIff`) and leaves the graph out of its
  key (`LinearizeMemo.GraphForgotten`).
- Stale routes go in no particular order, which can lose a gateway before the routes that go by it
  (`RouteReconciliation.RemovingSafeIff`).

## Model

| member | source | states |
|---|---|---|
| BerInteger.SizeInt64 | lib/ldapsrv/goldap/asn1.go:258-272 | The shifting loop returns, for every 64-bit value, `MinLength`. |
| BerInteger.MinLengthLeast | lib/ldapsrv/goldap/asn1.go:258-272 | `MinLength` bytes hold the value in two's complement and no smaller number does (X.690, section 8.3.2). |
| BerInteger.ParseInt64 | lib/ldapsrv/goldap/asn1.go:238-256 | Accumulating in a wrapping 64-bit register and extending the sign by shifts gives the two's-complement value of every string of at most 8 bytes, and refuses longer ones. |
| BerInteger.SignExtend | lib/ldapsrv/goldap/asn1.go:238-256 | Shifting up and back down by the unused bits turns the wrapped unsigned value into the signed one. |
| BerInteger.IntBytesRoundTrip | lib/ldapsrv/goldap/asn1.go:274-288 | The bytes written have the value they were written for, and no shorter string has it; with `ParseInt64`, parsing inverts writing. |
| Cursor.Bytes.WriteInt | lib/ldapsrv/goldap/asn1.go:274-288 | For every 64-bit value, fills exactly the least number of bytes in front of the offset and touches no other byte. |
| Ber.ParseHeader | lib/ldapsrv/goldap/asn1.go:647-713 | Specification of the header parser: a result always leaves the bytes it announces within what is there (one body, all error branches). |
| Cursor.Bytes.ParseTagAndLength | lib/ldapsrv/goldap/asn1.go:647-713 | The offset-moving header parser refines `ParseHeader` on arbitrary bytes, with the `1<<23` guard, the refusal of indefinite and non-minimal lengths, and tags of several bytes. |
| Cursor.Bytes.ParseBase128At | lib/ldapsrv/goldap/asn1.go:474-495 | The loop over base-128 tag digits, with its bound of 4 bytes. |
| Cursor.SizeTagAndLength | lib/ldapsrv/goldap/asn1.go:758-778 | The size of a header with a tag of at most 30. |
| Cursor.Bytes.WriteTagAndLength | lib/ldapsrv/goldap/asn1.go:780-816 | Writes exactly the header of the content that lies behind the offset, in exactly `SizeTagAndLength` bytes, and nothing else. |
| Ber.HeaderInverts | lib/ldapsrv/goldap/asn1.go:647-713 | Parsing inverts writing for every class, tag up to 30 and length below 2^31; longer lengths are refused. |
| Ber.ParseOneInverts | lib/ldapsrv/goldap/bytes.go:49-98 | Reading back an encoded tree, whatever follows it, gives the tree and the rest exactly when every announced length is below 2^31. |
| Ber.ParseForestInverts | lib/ldapsrv/goldap/bytes.go:49-98 | The same for the sequences of elements that fill a slice. |
| Ber.EncodeOntoShape | lib/ldapsrv/goldap/bytes.go:100-105 | The announced sizes add up: an encoding is as long as `Size` says, at every level. |
| X690.ReadsOne | lib/ldapsrv/goldap/asn1.go:647-713 | Octets are parsed as a tree exactly if X.690 has them for it: identifier octets (one, or the long form), length octets (definite, without a leading zero, below 2^31) and contents, at every level. The rules are written down anew, in octets, without the parser or the writer. |
| X690.ReadsForest | lib/ldapsrv/goldap/bytes.go:49-98 | The same for the elements that fill a slice. |
| X690.WritesOne | lib/ldapsrv/goldap/asn1.go:780-816 | What is written for a tree of less than 2^31 octets is identifier octet, shortest length octets and contents, at every level. |
| X690.ReadsInt | lib/ldapsrv/goldap/asn1.go:238-256 | The numbers that are read are two's-complement ones, most significant octet first. |
| X690.WritesInt | lib/ldapsrv/goldap/asn1.go:274-288 | For every 32-bit number the one to four octets written, spelled out. |
| Cursor.PrimitiveInverts | lib/ldapsrv/goldap/bytes.go:142-200 | A primitive is read back with its own class and tag and with no other. |
| Cursor.Bytes.ReadPrimitiveSubBytes | lib/ldapsrv/goldap/bytes.go:142-200 | Succeeds exactly if the first element left is a primitive of this class, tag and kind, returns it, and moves to the next one; never past the end of the slice. |
| Cursor.Bytes.EnterSubBytes | lib/ldapsrv/goldap/bytes.go:49-98 | Opens the sub-slice of the first element left, if it is compound and has this class and tag, without moving beyond the slice. |
| Cursor.Bytes.LeaveSubBytes | lib/ldapsrv/goldap/bytes.go:49-98 | Goes on behind the sub-slice if it was consumed; the rest of the outer slice is what it was. |
| Cursor.Bytes.PreviewTagAndLength | lib/ldapsrv/goldap/intermediate_response.go:16-22 | Parses the next header and leaves the offset where it was. |
| Cursor.Bytes.WriteBytes | lib/ldapsrv/goldap/bytes.go:210-222 | Lowers the offset by the length and changes exactly those bytes; space is a precondition that `WriteMessage` discharges once and for all. |
| Cursor.Bytes.WritePrimitiveSubBytes | lib/ldapsrv/goldap/bytes.go:107-124 | Writes a whole primitive element backwards, in exactly its announced size. |
| Cursor.SizePrimitiveSubBytes | lib/ldapsrv/goldap/boolean.go:41-58 | The announced size of a primitive element. |
| LdapWrite.WriteFilter | lib/ldapsrv/goldap/filter_equality_match.go:23-25 | As below; the octets of the tree of a filter are those of `WireTheory.FilterWritten`: writes, backwards, exactly these in front of what was written before, lowers the offset by their number, returns that number and touches nothing else. |
| LdapWrite.WriteFilterSet | lib/ldapsrv/goldap/filter_and.go:48-56 | Writes, backwards, exactly the bytes of its tree in front of what was written before, lowers the offset by their number, returns that number and touches nothing else. |
| LdapWrite.WriteSubstrings | lib/ldapsrv/goldap/filter_substring.go:136-156 | Writes, backwards, exactly the bytes of its tree in front of what was written before, lowers the offset by their number, returns that number and touches nothing else. |
| LdapWrite.WriteSubstringList | lib/ldapsrv/goldap/filter_substring.go:136-156 | Writes, backwards, exactly the bytes of its tree in front of what was written before, lowers the offset by their number, returns that number and touches nothing else. |
| LdapWrite.WriteExtensible | lib/ldapsrv/goldap/matching_rule_assertion.go:98-115 | Writes, backwards, exactly the bytes of its tree in front of what was written before, lowers the offset by their number, returns that number and touches nothing else. |
| LdapWrite.WriteAssertion | lib/ldapsrv/goldap/attribute_value_assertion.go:60-66 | Writes, backwards, exactly the bytes of its tree in front of what was written before, lowers the offset by their number, returns that number and touches nothing else. |
| LdapWrite.WriteFilters | lib/ldapsrv/goldap/filter_or.go:44-52 | Writes, backwards, exactly the bytes of its tree in front of what was written before, lowers the offset by their number, returns that number and touches nothing else. |
| LdapWrite.WriteStrings | lib/ldapsrv/goldap/attribute_selection.go:37-45 | Writes, backwards, exactly the bytes of its tree in front of what was written before, lowers the offset by their number, returns that number and touches nothing else. |
| LdapWrite.WritePartial | lib/ldapsrv/goldap/partial_attribute.go:55-65 | Writes, backwards, exactly the bytes of its tree in front of what was written before, lowers the offset by their number, returns that number and touches nothing else. |
| LdapWrite.WritePartials | lib/ldapsrv/goldap/attribute_list.go:44-52 | Writes, backwards, exactly the bytes of its tree in front of what was written before, lowers the offset by their number, returns that number and touches nothing else. |
| LdapWrite.WriteChange | lib/ldapsrv/goldap/modify_request_change.go:29-35 | Writes, backwards, exactly the bytes of its tree in front of what was written before, lowers the offset by their number, returns that number and touches nothing else. |
| LdapWrite.WriteChanges | lib/ldapsrv/goldap/modify_request.go:61-71 | Writes, backwards, exactly the bytes of its tree in front of what was written before, lowers the offset by their number, returns that number and touches nothing else. |
| LdapWrite.WriteControl | lib/ldapsrv/goldap/control.go:83-96 | Writes, backwards, exactly the bytes of its tree in front of what was written before, lowers the offset by their number, returns that number and touches nothing else. |
| LdapWrite.WriteControls | lib/ldapsrv/goldap/controls.go:35-43 | Writes, backwards, exactly the bytes of its tree in front of what was written before, lowers the offset by their number, returns that number and touches nothing else. |
| LdapWrite.WriteResult | lib/ldapsrv/goldap/result.go:177-187 | Writes, backwards, exactly the bytes of its tree in front of what was written before, lowers the offset by their number, returns that number and touches nothing else. |
| LdapWrite.WriteAuthentication | lib/ldapsrv/goldap/sasl_credentials.go:47-56 | Writes, backwards, exactly the bytes of its tree in front of what was written before, lowers the offset by their number, returns that number and touches nothing else. |
| LdapWrite.WriteSearch | lib/ldapsrv/goldap/search_request.go:109-121 | Writes, backwards, exactly the bytes of its tree in front of what was written before, lowers the offset by their number, returns that number and touches nothing else. |
| LdapWrite.WriteBindRequest | lib/ldapsrv/goldap/bind_request.go:78-101 | Writes, backwards, exactly the bytes of its tree in front of what was written before, lowers the offset by their number, returns that number and touches nothing else. |
| LdapWrite.WriteBindResponse | lib/ldapsrv/goldap/bind_response.go:49-58 | Writes, backwards, exactly the bytes of its tree in front of what was written before, lowers the offset by their number, returns that number and touches nothing else. |
| LdapWrite.WriteSearchResultEntry | lib/ldapsrv/goldap/search_result_entry.go:35-41 | Writes, backwards, exactly the bytes of its tree in front of what was written before, lowers the offset by their number, returns that number and touches nothing else. |
| LdapWrite.WriteModifyRequest | lib/ldapsrv/goldap/modify_request.go:61-71 | Writes, backwards, exactly the bytes of its tree in front of what was written before, lowers the offset by their number, returns that number and touches nothing else. |
| LdapWrite.WriteAddRequest | lib/ldapsrv/goldap/add_request.go:50-56 | Writes, backwards, exactly the bytes of its tree in front of what was written before, lowers the offset by their number, returns that number and touches nothing else. |
| LdapWrite.WriteModifyDNRequest | lib/ldapsrv/goldap/modify_dn_request.go:67-78 | Writes, backwards, exactly the bytes of its tree in front of what was written before, lowers the offset by their number, returns that number and touches nothing else. |
| LdapWrite.WriteCompareRequest | lib/ldapsrv/goldap/compare_request.go:42-48 | Writes, backwards, exactly the bytes of its tree in front of what was written before, lowers the offset by their number, returns that number and touches nothing else. |
| LdapWrite.WriteExtendedRequest | lib/ldapsrv/goldap/extended_request.go:80-89 | Writes, backwards, exactly the bytes of its tree in front of what was written before, lowers the offset by their number, returns that number and touches nothing else. |
| LdapWrite.WriteExtendedResponse | lib/ldapsrv/goldap/extended_response.go:77-90 | Writes, backwards, exactly the bytes of its tree in front of what was written before, lowers the offset by their number, returns that number and touches nothing else. |
| LdapWrite.WriteIntermediateResponse | lib/ldapsrv/goldap/intermediate_response.go:75-87 | Writes, backwards, exactly the bytes of its tree in front of what was written before, lowers the offset by their number, returns that number and touches nothing else. |
| LdapWrite.SizeFilter | lib/ldapsrv/goldap/filter_and.go:14-22 | The recursive size computation returns the length of the encoding. |
| LdapWrite.SizeSubstrings | lib/ldapsrv/goldap/filter_substring.go:189-208 | The recursive size computation returns the length of the encoding. |
| LdapWrite.SizeExtensible | lib/ldapsrv/goldap/matching_rule_assertion.go:135-152 | The recursive size computation returns the length of the encoding. |
| LdapWrite.SizePartial | lib/ldapsrv/goldap/partial_attribute.go:70-80 | The recursive size computation returns the length of the encoding. |
| LdapWrite.SizeControl | lib/ldapsrv/goldap/control.go:98-111 | The recursive size computation returns the length of the encoding. |
| LdapWrite.SizeResult | lib/ldapsrv/goldap/result.go:260-270 | The recursive size computation returns the length of the encoding. |
| LdapWrite.SizeSearch | lib/ldapsrv/goldap/search_request.go:140-152 | The recursive size computation returns the length of the encoding. |
| LdapWrite.SizeExtendedResponse | lib/ldapsrv/goldap/extended_response.go:92-105 | The recursive size computation returns the length of the encoding. |
| LdapWrite.SizeIntermediateResponse | lib/ldapsrv/goldap/intermediate_response.go:92-104 | The recursive size computation returns the length of the encoding. |
| LdapWrite.SizeMessage | lib/ldapsrv/goldap/message.go:126-137 | The size of the whole message is the length of its encoding. |
| LdapWrite.WriteMessage | lib/ldapsrv/goldap/message.go:88-124 | Allocates the computed size, never lacks space, ends at offset 0 and leaves exactly the encoding of the message in the buffer; what is sent when a control has a criticality of FALSE or a value is absent included. |
| LdapRead.ReadFilter | lib/ldapsrv/goldap/filter.go:28-75 | On arbitrary bytes it terminates and stays within the slice; when the rest of the slice parses into elements, it gives exactly the filter the next one stands for, or refuses if it stands for none; which one that is, octet by octet, says `WireReading.FilterRead`. |
| LdapRead.ReadFilters | lib/ldapsrv/goldap/filter_and.go:24-46 | On arbitrary bytes it terminates and stays within the slice; when the rest of the slice parses into elements, it gives exactly the value the next ones stand for, or refuses if they stand for none, and a success leaves what follows them. |
| LdapRead.ReadFilterSet | lib/ldapsrv/goldap/filter_or.go:9-17 | On arbitrary bytes it terminates and stays within the slice; when the rest of the slice parses into elements, it gives exactly the value the next ones stand for, or refuses if they stand for none, and a success leaves what follows them. |
| LdapRead.ReadFilterNot | lib/ldapsrv/goldap/filter_not.go:34-42 | On arbitrary bytes it terminates and stays within the slice; when the rest of the slice parses into elements, it gives exactly the value the next ones stand for, or refuses if they stand for none, and a success leaves what follows them. |
| LdapRead.ReadSubstringList | lib/ldapsrv/goldap/filter_substring.go:66-129 | On arbitrary bytes it terminates and stays within the slice; when the rest of the slice parses into elements, it gives exactly the value the next ones stand for, or refuses if they stand for none, and a success leaves what follows them. |
| LdapRead.ReadSubstrings | lib/ldapsrv/goldap/filter_substring.go:9-21 | On arbitrary bytes it terminates and stays within the slice; when the rest of the slice parses into elements, it gives exactly the value the next ones stand for, or refuses if they stand for none, and a success leaves what follows them. |
| LdapRead.ReadExtensibleComponents | lib/ldapsrv/goldap/matching_rule_assertion.go:18-48 | On arbitrary bytes it terminates and stays within the slice; when the rest of the slice parses into elements, it gives exactly the value the next ones stand for, or refuses if they stand for none, and a success leaves what follows them. |
| LdapRead.ReadExtensible | lib/ldapsrv/goldap/filter_extensible_match.go:4-16 | On arbitrary bytes it terminates and stays within the slice; when the rest of the slice parses into elements, it gives exactly the value the next ones stand for, or refuses if they stand for none, and a success leaves what follows them. |
| LdapRead.ReadAssertion | lib/ldapsrv/goldap/attribute_value_assertion.go:26-34 | On arbitrary bytes it terminates and stays within the slice; when the rest of the slice parses into elements, it gives exactly the value the next ones stand for, or refuses if they stand for none, and a success leaves what follows them. |
| LdapRead.ReadPartial | lib/ldapsrv/goldap/partial_attribute.go:8-18 | On arbitrary bytes it terminates and stays within the slice; when the rest of the slice parses into elements, it gives exactly the value the next ones stand for, or refuses if they stand for none, and a success leaves what follows them. |
| LdapRead.ReadAttribute | lib/ldapsrv/goldap/attribute.go:16-33 | On arbitrary bytes it terminates and stays within the slice; when the rest of the slice parses into elements, it gives exactly the value the next ones stand for, or refuses if they stand for none, and a success leaves what follows them. |
| LdapRead.ReadPartials | lib/ldapsrv/goldap/partial_attribute_list.go:20-34 | On arbitrary bytes it terminates and stays within the slice; when the rest of the slice parses into elements, it gives exactly the value the next ones stand for, or refuses if they stand for none, and a success leaves what follows them. |
| LdapRead.ReadAttributes | lib/ldapsrv/goldap/attribute_list.go:18-32 | On arbitrary bytes it terminates and stays within the slice; when the rest of the slice parses into elements, it gives exactly the value the next ones stand for, or refuses if they stand for none, and a success leaves what follows them. |
| LdapRead.ReadChange | lib/ldapsrv/goldap/modify_request_change.go:3-11 | On arbitrary bytes it terminates and stays within the slice; when the rest of the slice parses into elements, it gives exactly the value the next ones stand for, or refuses if they stand for none, and a success leaves what follows them. |
| LdapRead.ReadChanges | lib/ldapsrv/goldap/modify_request.go:36-50 | On arbitrary bytes it terminates and stays within the slice; when the rest of the slice parses into elements, it gives exactly the value the next ones stand for, or refuses if they stand for none, and a success leaves what follows them. |
| LdapRead.ReadControl | lib/ldapsrv/goldap/control.go:29-37 | On arbitrary bytes it terminates and stays within the slice; when the rest of the slice parses into elements, it gives exactly the value the next ones stand for, or refuses if they stand for none, and a success leaves what follows them. |
| LdapRead.ReadControls | lib/ldapsrv/goldap/controls.go:18-32 | On arbitrary bytes it terminates and stays within the slice; when the rest of the slice parses into elements, it gives exactly the value the next ones stand for, or refuses if they stand for none, and a success leaves what follows them. |
| LdapRead.ReadResult | lib/ldapsrv/goldap/result.go:69-111 | On arbitrary bytes it terminates and stays within the slice; when the rest of the slice parses into elements, it gives exactly the value the next ones stand for, or refuses if they stand for none, and a success leaves what follows them. |
| LdapRead.ReadAuthentication | lib/ldapsrv/goldap/authentication_choice.go:12-44 | On arbitrary bytes it terminates and stays within the slice; when the rest of the slice parses into elements, it gives exactly the value the next ones stand for, or refuses if they stand for none, and a success leaves what follows them. |
| LdapRead.ReadSasl | lib/ldapsrv/goldap/sasl_credentials.go:6-20 | On arbitrary bytes it terminates and stays within the slice; when the rest of the slice parses into elements, it gives exactly the value the next ones stand for, or refuses if they stand for none, and a success leaves what follows them. |
| LdapRead.ReadSearchComponents | lib/ldapsrv/goldap/search_request.go:40-90 | On arbitrary bytes it terminates and stays within the slice; when the rest of the slice parses into elements, it gives exactly the value the next ones stand for, or refuses if they stand for none, and a success leaves what follows them. |
| LdapRead.ReadBindRequest | lib/ldapsrv/goldap/bind_request.go:43-76 | On arbitrary bytes it terminates and stays within the slice; when the rest of the slice parses into elements, it gives exactly the value the next ones stand for, or refuses if they stand for none, and a success leaves what follows them. |
| LdapRead.ReadBindResponse | lib/ldapsrv/goldap/bind_response.go:19-47 | On arbitrary bytes it terminates and stays within the slice; when the rest of the slice parses into elements, it gives exactly the value the next ones stand for, or refuses if they stand for none, and a success leaves what follows them. |
| LdapRead.ReadSearchResultEntry | lib/ldapsrv/goldap/search_result_entry.go:16-30 | On arbitrary bytes it terminates and stays within the slice; when the rest of the slice parses into elements, it gives exactly the value the next ones stand for, or refuses if they stand for none, and a success leaves what follows them. |
| LdapRead.ReadModifyRequest | lib/ldapsrv/goldap/modify_request.go:24-34 | On arbitrary bytes it terminates and stays within the slice; when the rest of the slice parses into elements, it gives exactly the value the next ones stand for, or refuses if they stand for none, and a success leaves what follows them. |
| LdapRead.ReadAddRequest | lib/ldapsrv/goldap/add_request.go:26-40 | On arbitrary bytes it terminates and stays within the slice; when the rest of the slice parses into elements, it gives exactly the value the next ones stand for, or refuses if they stand for none, and a success leaves what follows them. |
| LdapRead.ReadModifyDNRequest | lib/ldapsrv/goldap/modify_dn_request.go:18-60 | On arbitrary bytes it terminates and stays within the slice; when the rest of the slice parses into elements, it gives exactly the value the next ones stand for, or refuses if they stand for none, and a success leaves what follows them. |
| LdapRead.ReadCompareRequest | lib/ldapsrv/goldap/compare_request.go:26-40 | On arbitrary bytes it terminates and stays within the slice; when the rest of the slice parses into elements, it gives exactly the value the next ones stand for, or refuses if they stand for none, and a success leaves what follows them. |
| LdapRead.ReadExtendedRequest | lib/ldapsrv/goldap/extended_request.go:48-78 | On arbitrary bytes it terminates and stays within the slice; when the rest of the slice parses into elements, it gives exactly the value the next ones stand for, or refuses if they stand for none, and a success leaves what follows them. |
| LdapRead.ReadExtendedResponse | lib/ldapsrv/goldap/extended_response.go:25-75 | On arbitrary bytes it terminates and stays within the slice; when the rest of the slice parses into elements, it gives exactly the value the next ones stand for, or refuses if they stand for none, and a success leaves what follows them. |
| LdapRead.ReadIntermediateResponse | lib/ldapsrv/goldap/intermediate_response.go:24-70 | On arbitrary bytes it terminates and stays within the slice; when the rest of the slice parses into elements, it gives exactly the value the next ones stand for, or refuses if they stand for none, and a success leaves what follows them. |
| LdapRead.ReadUnbind | lib/ldapsrv/goldap/unbind_request.go:4-25 | On arbitrary bytes it terminates and stays within the slice; when the rest of the slice parses into elements, it gives exactly the value the next ones stand for, or refuses if they stand for none, and a success leaves what follows them. |
| LdapRead.ReadStrings | lib/ldapsrv/goldap/attribute_selection.go:20-35 | On arbitrary bytes it terminates and stays within the slice; when the rest of the slice parses into elements, it gives exactly the value the next ones stand for, or refuses if they stand for none, and a success leaves what follows them. |
| LdapRead.ReadUris | lib/ldapsrv/goldap/referral.go:16-34 | On arbitrary bytes it terminates and stays within the slice; when the rest of the slice parses into elements, it gives exactly the value the next ones stand for, or refuses if they stand for none, and a success leaves what follows them. |
| LdapRead.ReadNumber | lib/ldapsrv/goldap/integer.go:19-31 | On arbitrary bytes it terminates and stays within the slice; when the rest of the slice parses into elements, it gives exactly the value the next ones stand for, or refuses if they stand for none, and a success leaves what follows them. |
| LdapRead.ReadPositive | lib/ldapsrv/goldap/integer.go:33-51 | On arbitrary bytes it terminates and stays within the slice; when the rest of the slice parses into elements, it gives exactly the value the next ones stand for, or refuses if they stand for none, and a success leaves what follows them. |
| LdapRead.ReadEnum | lib/ldapsrv/goldap/enumerated.go:9-25 | On arbitrary bytes it terminates and stays within the slice; when the rest of the slice parses into elements, it gives exactly the value the next ones stand for, or refuses if they stand for none, and a success leaves what follows them. |
| LdapRead.ReadFlag | lib/ldapsrv/goldap/boolean.go:27-39 | On arbitrary bytes it terminates and stays within the slice; when the rest of the slice parses into elements, it gives exactly the value the next ones stand for, or refuses if they stand for none, and a success leaves what follows them. |
| LdapRead.ReadOctets | lib/ldapsrv/goldap/octetstring.go:17-29 | On arbitrary bytes it terminates and stays within the slice; when the rest of the slice parses into elements, it gives exactly the value the next ones stand for, or refuses if they stand for none, and a success leaves what follows them. |
| LdapRead.ReadOp | lib/ldapsrv/goldap/protocol_op.go:6-67 | The dispatch over the operations decides as the tree-level decoder does. |
| LdapRead.ReadMessageComponents | lib/ldapsrv/goldap/message.go:50-86 | Message number, operation and optional controls, in this order and nothing after them. |
| LdapRead.ReadMessage | lib/ldapsrv/goldap/read.go:3-11 | The recursive-descent decoder returns, on arbitrary bytes, exactly `DecodeMessage` of them. |
| LdapTheory.FilterInverts | lib/ldapsrv/goldap/filter.go:28-75 | For arbitrarily nested filters: the tree of a filter stands for it exactly when it is well-formed and spells out `dnAttributes`. |
| LdapTheory.FilterAccepted | lib/ldapsrv/goldap/filter.go:28-75 | Every filter that is accepted has non-empty sets and, in each list of substrings, at most one initial and one final one; about their order it says nothing. |
| LdapTheory.OpInverts | lib/ldapsrv/goldap/protocol_op.go:6-67 | The same for each of the operations. |
| LdapTheory.MessageInverts | lib/ldapsrv/goldap/message.go:50-86 | The same for the message with its controls. |
| LdapTheory.MessageAccepted | lib/ldapsrv/goldap/message.go:50-86 | Every accepted message has its numbers in range and its lists as long as required; its filters are those of `FilterAccepted`. |
| LdapTheory.AcceptedStandard | lib/ldapsrv/goldap/filter.go:28-75 | Of the accepted filters, those that RFC 4511, section 4.5.1.7, allows are exactly those in which every list of substrings is in order and every extensible match names a rule or a type. |
| LdapTheory.AcceptedStandardMessage | lib/ldapsrv/goldap/message.go:50-86 | The same for accepted messages. |
| LdapTheory.DisorderAccepted | lib/ldapsrv/goldap/filter_substring.go:66-129 | A final substring before an initial one, and an extensible match with neither rule nor type, are accepted, for any texts, against sections 4.5.1.7.2 and 4.5.1.7.7 of RFC 4511. |
| LdapTheory.RoundTrip | lib/ldapsrv/goldap/message.go:50-124 | Decoding what `Write` produced gives back the same message, whatever follows it, if and only if the message is well-formed, spells out `dnAttributes` and announces less than 2^31 bytes; otherwise decoding fails. |
| LdapTheory.DecodeEncodeDecode | lib/ldapsrv/goldap/message.go:50-137 | Every accepted message is well-formed, and decoding its encoding gives it again exactly when `dnAttributes` is spelled out and the length stays below 2^31. |
| WireTheory.FilterWritten | lib/ldapsrv/goldap/struct.go:471-480 | The octets written for a filter, arbitrarily nested, are those of RFC 4511 Appendix B: 0xA0 for And, 0xA1 for Or, and so on for each alternative, substring position and optional part, spelled out once more as `Rfc4511.FilterOctets`. |
| WireTheory.OpWritten | lib/ldapsrv/goldap/protocol_op.go:6-67 | The same for every operation and kind of response, with the order of its fields. |
| WireTheory.EncodesAsWritten | lib/ldapsrv/goldap/message.go:88-124 | The encoding of every message of less than 2^31 octets is the one of the standard, octet by octet. |
| WireReading.FilterRead | lib/ldapsrv/goldap/filter.go:28-75 | An element is accepted as a filter if and only if it is the standard's element for that filter: identifier octets, order, number and kinds of its parts, non-empty sets, one initial and one final substring at most, spelled out once more as `Rfc4511.IsFilter`. |
| OpReading.OpRead | lib/ldapsrv/goldap/protocol_op.go:6-67 | The same for every operation, with the ranges and codes of its fields. |
| OpReading.MessageRead | lib/ldapsrv/goldap/message.go:50-86 | The same for the message with its controls. |
| OpReading.DecodesExactly | lib/ldapsrv/goldap/read.go:3-11 | For arbitrary bytes: a message is decoded if and only if octets that X.690 and RFC 4511 have for it are in front, with nothing of the codec in the statement but its result. |
| Framing.Stream.ReadTagAndLength | lib/ldapsrv/packet.go:87-160 | The second header parser, over the stream: consumes the header and keeps its bytes. |
| Framing.Stream.ReadPacket | lib/ldapsrv/packet.go:64-81 | Consumes exactly one frame and returns its bytes, or fails. |
| Framing.Stream.Serve | lib/ldapsrv/client.go:140-225 | The loop over a connection handles exactly the messages `Served` of the stream: it skips frames that do not decode and stops at an unbind or where no frame is left. |
| Framing.DecodePacket | lib/ldapsrv/packet.go:48-60 | A frame is decoded as a message, with panics taken for failures. |
| Framing.HeadersAgree | lib/ldapsrv/packet.go:87-160 | On every header 0x30 that the decoding parser accepts, the framing parser finds the same length. |
| Framing.FrameOfMessage | lib/ldapsrv/packet.go:64-81 | The first frame of a stream that starts with an encoded message is that message's encoding. |
| Framing.StreamRoundTrip | lib/ldapsrv/packet.go:23-104 | A stream of concatenated encoded messages is split into exactly these messages, in order: the well-formed ones are handled with the value they were sent with, up to an unbind, and a refused one does not disturb those after it. |
| Linearize.Linearize | lib/ui/linearize.go:44-95 | For every graph, set of units and map order, duplicate edges and self-loops included: an order is returned if and only if the graph restricted to the units has no cycle, and then it holds each unit once with every requirement before its dependents. |
| Linearize.Count | lib/ui/linearize.go:48-65 | The first loops count, per unit, the listed requirements among the units, and list the dependents as often. |
| Linearize.Visit | lib/ui/linearize.go:82-87 | Taking a unit lowers the counts of its dependents and queues those that reach zero. |
| Linearize.OrderExcludesCycles | lib/ui/linearize.go:44-95 | An order excludes cycles. |
| Linearize.StuckUnitsCycle | lib/ui/linearize.go:90-92 | Units left over that all wait for one another contain a cycle. |
| LinearizeMemo.DependencyInverts | lib/ui/dependency/dependency.go:57-78 | Parsing a dependency inverts printing it exactly for valid kinds and names without a colon. |
| LinearizeMemo.CacheKey | lib/ui/linearize.go:14-23 | The key joins the sorted names of the units, for every map order. |
| LinearizeMemo.KeyTells | lib/ui/linearize.go:14-23 | Sets of units have different keys if no printed name has a comma that begins another dependency. |
| LinearizeMemo.SharesIff | lib/ui/linearize.go:14-23 | A set shares its key with another exactly when it has at least two units, or a single one whose printed name splits into two in strictly ascending order at a comma that begins a valid dependency. |
| LinearizeMemo.KeysCollide | lib/ui/linearize.go:14-23 | For instance, the unit `a,style:b` alone and the units `a` and `b` together. |
| LinearizeMemo.Renderer.Linearize | lib/ui/linearize.go:25-42 | For any graph per call: the memo returns what the first call with this key computed, for its graph; that is right for the units and graph asked for, as long as the graph is the same and no name has such a comma. |
| LinearizeMemo.GraphForgotten | lib/ui/linearize.go:25-42 | The graph is not part of the key: for any two units, asking once and then again with the requirement between them turned round returns an order that breaks it, though the graph has no cycle. |
| SortedMaps.SortedMap.Store | lib/pgcache/sorted_map.go:38-43 | Refines the map update; the tree's keys and the map's domain coincide afterwards; only the pointer changes. |
| SortedMaps.SortedMap.Delete | lib/pgcache/sorted_map.go:45-50 | Refines the removal of a key, in the same way. |
| SortedMaps.SortedMap.Load | lib/pgcache/sorted_map.go:52-55 | Looks the key up in the refined map. |
| SortedMaps.SortedMap.Scan | lib/pgcache/sorted_map.go:57-82 | `All`, `From` and `Between` yield exactly the entries of the refined map in the range, in strictly increasing order. |
| SortedMaps.ScanUnique | lib/pgcache/sorted_map.go:57-82 | A scan of a map has one answer only. |
| SortedMaps.SortedMap.ScanAcrossUpdates | lib/pgcache/sorted_map.go:30-82 | An iteration sees the map as it was when it started, with any stores and deletes at any point of it; the map afterwards is the one with all of them. |
| SortedMaps.InsertKeeps | lib/pgcache/sorted_map.go:38-43 | Inserting keeps the order of the tree and its keys. |
| Replica.Encode | lib/pgcache/notification_manager.go:99-118 | The loop keeps the last event of each key. |
| Replica.Decode | lib/pgcache/notification_manager.go:120-141 | For every map order, the events are those of the notice, each once. |
| Replica.MergedTells | lib/pgcache/notification_manager.go:86-105 | The merged type of a key says whether the transaction leaves it in the table; keys that are not named are left as they were. |
| Replica.Table.HandleEvents | lib/pgcache/table.go:311-376 | Drops the deleted keys and stores the rows of the first of three fetches that is complete; fails exactly when none is, and then only the deletions are done. |
| Replica.Get | lib/pgcache/table.go:338-354 | A fetch returns a row per key asked for exactly when all of them are in the table. |
| Replica.TableTx.Store | lib/pgcache/table.go:222-241 | Logs the objects, unless the transaction is over or the database refuses. |
| Replica.TableTx.Delete | lib/pgcache/table.go:243-262 | Logs the keys, in the same cases. |
| Replica.TableTx.Commit | lib/pgcache/table.go:264-309 | Sends the merged notice, then commits, then applies the same updates to the own cache; on each error, what has and has not happened. |
| Convergence.Converges | lib/pgcache/table.go:264-376 | Over every run in which each fetch finds the rows as they are right after the commit of its notice, a replica that has caught up equals the database. Fetches may see any later commits that come before it is caught up, and the other parts of handling a notice may come before its commit. |
| Convergence.TimelyWhen | lib/pgcache/table.go:264-376 | A fetch does if it comes after the commit of its notice, or asks for nothing. |
| Convergence.StepKeeps | lib/pgcache/table.go:264-376 | The invariant behind it, kept by every step: after the commit of the notice in hand, keys without a pending notice agree and of the others the last pending touch says whether the database has them; before it, the replica is the database with the transactions handled ahead of their commit applied to it. |
| Convergence.FetchShort | lib/pgcache/table.go:344-351 | A fetch after its commit comes back short exactly when a later commit, whose notice is still to come, has deleted one of the keys. |
| Convergence.StaleWhenHandledEarly | lib/pgcache/table.go:284-290 | Without the hypothesis it fails: for any two values of a row there is a run that ends caught up and stale. |
| Convergence.EarlyFetchEnds | lib/pgcache/table.go:284-290 | Which fetches before their commit end stale: the fetch of the latest notice, completed and caught up with, leaves the replica equal to the database if and only if it was a fetch that `Converges` admits. |
| Convergence.HandleNext | lib/pgcache/table.go:311-376 | The code's handling of a notice, while each of its fetches sees the table after some more commits, is a path of these steps. |
| Convergence.HandlingSteps | lib/pgcache/table.go:311-376 | The path: begin, commits, the fetch that is complete, finish. |
| Text.RangeScan | service/bottin/store/types.go:219-233 | A key is in the range from p to p followed by m exactly when it starts with p and the rest sorts below m. |
| Names.ParsePrint | service/bottin/store/types.go:42-79 | Parsing inverts printing for exactly the non-empty names whose components are canonical and free of the separator. |
| Names.ParsedCanonical | service/bottin/store/types.go:42-79 | Whatever is parsed is canonical: printing and parsing it again gives the same name. |
| NameSyntax.NameIs | service/bottin/store/types.go:42-79 | Text is read as a name if and only if it is components between commas, each a type, one equals sign and a value, and the name has them without the blanks around them and in lower case. |
| NameSyntax.NormIs | service/bottin/store/types.go:42-60 | What is left of a text after trimming and lower-casing, byte by byte. |
| NameSyntax.NameWritten | service/bottin/store/types.go:36-90 | How a name and its key are written: type, equals sign, value; the name from the entry up with commas, the key from the top down with slashes. |
| NameSyntax.LessIs | service/bottin/store/types.go:135-137 | Keys are ordered by the first byte that differs, and a key comes before its extensions. |
| Names.StringsTellApart | service/bottin/store/types.go:84-90 | Keys and printed names tell clean names apart. |
| Names.PrefixOnKeys | service/bottin/store/types.go:116-165 | One name is above another exactly when its key starts the other's and what follows is nothing or begins with a slash. |
| Names.StringPrefixMisleads | service/bottin/store/types.go:121-123 | The comment's claim that a string prefix suffices fails for siblings such as u=a and u=ab. |
| Names.PrefixEndString | service/bottin/store/types.go:219-233 | The end of the range is the key followed by U+10FFFF. |
| Names.ScannedExactly | service/bottin/store/types.go:219-233 | What the scan below a name meets, for any key; below the empty name, nothing. |
| Names.ScanCovers | service/bottin/store/types.go:159-165 | The scan below a name meets the name and everything below it. |
| DirectoryStore.Mem.List | service/bottin/store/mem.go:67-91 | The ascending scan returns the entries of the range in order, or, if exact, the one entry with this name. They share their attribute maps with the store. |
| DirectoryStore.MemTransaction.Commit | service/bottin/store/mem.go:162-191 | Applies the logged changes in order, once. |
| DirectoryStore.CloneEntry | service/bottin/store/types.go:190-199 | A new entry holds a copy of the attributes, with the value that names it. |
| DirectoryStore.Psql.List | service/bottin/store/psql.go:221-233 | The listing over the table. |
| DirectoryStore.PsqlTransaction.Commit | lib/pgcache/table.go:264-309 | Notice, commit, own cache: with success the cache is the former one with all logged changes applied in order; with an error nothing has changed in it. |
| DirectoryStore.StoresAgree | service/bottin/store/psql.go:221-233 | Over the same entries the two stores give the same listing, exactly except when an exact one meets an entry of another name under the key. |
| DirectoryStore.StoresAgreeOnClean | service/bottin/store/mem.go:67-91 | With names free of slashes they always agree. |
| DirectoryStore.TransactionsAgree | service/bottin/store/mem.go:67-191 | After any list of transactions from empty stores that store no name with a slash, the two stores answer every listing alike. |
| DirectoryStore.MemAfter | service/bottin/store/mem.go:93-191 | Running transactions on the in-memory store leaves what `TransactionsAgree` speaks of. |
| DirectoryStore.PsqlAfter | lib/pgcache/table.go:264-309 | So does running them on the other one. |
| DirectoryStore.SlashedNamesDisagree | service/bottin/store/types.go:147-149 | A concrete store and name with slashes on which they do not. |
| CalendarStore.Filter | service/calendar/store/mem.go:56-68 | The filtering loop returns exactly the resources whose path has the prefix, for every map order. |
| CalendarStore.Mem.ListCalendarObjects | service/calendar/store/mem.go:97-109 | The same for the objects. |
| CalendarStore.Online.ListCalendars | service/calendar/store/online_calendar.go:140-145 | The range scan returns exactly the resources in the range; the listing of object references is the same scan. |
| CalendarStore.ListingsAgree | service/calendar/store/online_object.go:167-170 | The two listings hold the same resources if and only if the rest of every path below the base sorts below U+10FFFF; the online one never has more. |
| CalendarStore.BelowLastRune | service/calendar/store/online_calendar.go:140-145 | Of well-formed UTF-8, only what begins with U+10FFFF does not sort below it. |
| BottinServer.Bottin.Add | service/bottin/write.go:23-168 | The loops, checks and the transaction refine `AddChanges`: the whole new store, with what was edited in place; and the answer is that of `AddTable`, read off the request and the store: for the name, for access, for an entry that is there, for a parent that is not, for the first attribute at fault, in this order, and none otherwise. |
| BottinServer.Bottin.DraftEntry | service/bottin/write.go:73-123 | The loop over the attributes drafts the entry and collects the members. |
| BottinServer.Bottin.Del | service/bottin/write.go:171-268 | Refines `DelChanges`: the whole new store, also where it fails after edits in place; and the answer is that of `DelTable`: for the name, for access, for an entry that is not there, for keys that start with its key, for lists that hold names of nothing, and none otherwise. |
| BottinServer.Bottin.Modify | service/bottin/write.go:271-502 | Refines `ModifyChanges`: the whole new store, also where it fails after edits in place; and the answer is that of `ModifyTable`: for the name, for access, for an entry that is not there, for the first change at fault (managed, naming or closed attribute, members that cannot be read), for a member that comes in and is not stored, for a lost object class, for members that go and cannot be edited, and none otherwise. |
| Answers.AddAnswers | service/bottin/write.go:23-168 | `AddChanges` answers by its table, for every request and store; the table speaks of the request and the stored entries only. |
| Answers.DelAnswers | service/bottin/write.go:171-268 | The same for Del. |
| Answers.ModifyAnswers | service/bottin/write.go:271-502 | The same for Modify. |
| BottinServer.Bottin.ModifyAttribute | service/bottin/write.go:303-443 | One change of one attribute: the nested loops compute its values and the two journals. |
| BottinServer.Bottin.MembershipAdd | service/bottin/memberof.go:11-37 | Edits the list of the stored entry in place, through the map it shares, and logs a copy of the entry as it then is. |
| BottinServer.Bottin.MembershipRemove | service/bottin/memberof.go:39-77 | The same for removing, with the early return before the edit. |
| BottinServer.Bottin.Assign | service/bottin/memberof.go:31-37 | Assigning the list changes this one entry of the store at once, and the log gains a copy that later edits do not reach. |
| BottinServer.Bottin.GetEntry | service/bottin/read.go:18-48 | Finds the entry with exactly this name. |
| BottinServer.Bottin.ExistsEntry | service/bottin/read.go:50-57 | Says whether it is there. |
| BottinServer.Bottin.Initialize | service/bottin/bottin.go:137-180 | Stores the base entry unless it is there, with exactly these attributes: object classes, creator, time, identifier, and the one that names it. |
| DirectoryTree.ParsedClean | service/bottin/bottin.go:182-203 | A name that passes the check is below the base and canonical. |
| DirectoryTree.RunsKeepTree | service/bottin/write.go:56-68 | Over every run of requests from an empty store, if no added name has a slash, every entry is the base or has its parent stored. |
| DirectoryTree.AddKeepsTree | service/bottin/write.go:23-168 | One Add keeps the tree. |
| DirectoryTree.DelKeepsTree | service/bottin/write.go:171-268 | One Del keeps the tree, even when it writes the deleted entry again. |
| DirectoryTree.ModifyKeepsTree | service/bottin/write.go:271-502 | One Modify keeps the tree. |
| DirectoryTree.DelTakesLeaves | service/bottin/write.go:188-208 | What the leaf check lets through is stored and has nothing below it (RFC 4511, section 4.8). |
| DirectoryTree.LeafRefused | service/bottin/write.go:203-208 | A leaf is refused exactly when another key starts with its key and goes on with something below U+10FFFF. |
| Witnesses.SiblingBlocks | service/bottin/write.go:203-208 | By a run of three requests, for any base, type and value: a leaf cannot be deleted next to a sibling whose value only goes on after its own. |
| Witnesses.EarlyReturnDangles | service/bottin/memberof.go:66-68 | By a run: for any four names below a base of one component, deleting one of three members of a group succeeds and leaves member and memberof not inverse. |
| Membership.AddKeepsInverse | service/bottin/write.go:70-168 | A successful Add keeps member and memberof inverse if and only if the entry is not named by one of these two attributes. |
| Membership.AddCompletes | service/bottin/write.go:23-168 | An Add that is refused changes nothing, not even in place, and past its checks it always completes. |
| Membership.RemovalIs | service/bottin/write.go:212-267 | What a Del leaves under every key: each removal that takes place lasts, also where both are of one entry, and the deleted entry is there again exactly if it was written after its deletion. |
| Membership.DelKeepsInverseIff | service/bottin/write.go:212-267 | The deleted entry is written again if and only if it is its own member and not both removals from it give up. If it is gone, the relations stay inverse if and only if no other removal takes the early return; if it is there again, if and only if all other removals do and both from itself do not. |
| Membership.DelKeepsInverse | service/bottin/write.go:171-268 | The same of the whole operation, which past the leaf check always completes and otherwise changes nothing. |
| MembershipRuns.RunsInverseIff | service/bottin/write.go:70-502 | Over every run of requests of all kinds from an empty store, the relations are inverse after each request if and only if each one is harmless where it is served: a condition per request on what is stored and asked for, exact for each kind. |
| MembershipRuns.ModifyKeepsInverse | service/bottin/write.go:271-502 | A Modify that is refused changes nothing, one that passes its checks completes, and it keeps the relations inverse if and only if the members it leaves are exactly the entries that list it, and, unless the edit is lost, it was in no other group. |
| Membership.RemoveIs | service/bottin/memberof.go:39-77 | What a removal rewrites when every value names a stored entry. |
| AddTheory.DraftCollects | service/bottin/write.go:73-123 | The draft collects, per key, all values asked for in whatever spellings and parts; members in canonical form. |
| AddTheory.AddStores | service/bottin/write.go:125-148 | A successful Add stores every attribute with the values expected of it: the requested ones, the class and system attributes, and the one that names the entry. |
| ModifyTheory.ModifiedMeans | service/bottin/write.go:366-443 | One change, value by value, as section 4.6 of RFC 4511 has it. |
| ModifyTheory.ModifyFolds | service/bottin/write.go:300-444 | For any list of changes, each attribute ends as the left fold of its own changes over its previous values, however they are interleaved. |
| ModifyTheory.JournalsExact | service/bottin/write.go:366-443 | Each change journals exactly the values it adds and takes. |
| ModifyTheory.JournalsCover | service/bottin/write.go:295-444 | Every member gained is in the one journal and every member lost in the other. |
| ModifyTheory.ModifyStores | service/bottin/write.go:469-495 | The edit is what is stored if and only if no membership update rewrites the same entry after it. |
| ModifyTheory.StampedKeeps | service/bottin/write.go:469-482 | The stored edit holds the edited values, the modifier, the time, and the value that names the entry. |
| ModifyTheory.ModifyForgets | service/bottin/write.go:300-301 | An attribute that no change touches is still there afterwards if and only if the edit itself is lost, against section 4.6 of RFC 4511. |
| Witnesses.ModifyLosesObjectClass | service/bottin/write.go:300-301 | By a run: a Modify of the base entry without any changes succeeds and its object class is gone. |
| Witnesses.ModifyLosesItself | service/bottin/write.go:469-495 | By a run: making the base entry its own member succeeds and leaves it without members. |
| FilterMatch.FilterMeans | service/bottin/read.go:204-273 | For filters of supported parts there is always an answer, the truth value that section 4.5.1.7 of RFC 4511 gives, with values that differ in case only being the same, except passwords. |
| FilterMatch.FilterExactly | service/bottin/read.go:204-273 | For every filter and entry: there is no answer if and only if going from left to right meets a part of an unsupported kind before an And or Or around it is decided, and otherwise the answer is the standard's truth value. |
| FilterMatch.UnsupportedFails | service/bottin/read.go:265-272 | A substring, ordering, approximate or extensible filter has no answer, whatever the entry. |
| FilterMatch.LowerSame | service/bottin/read.go:204-273 | Lower-casing both sides compares equal exactly when each letter is the same or its other case. |
| FilterMatch.DeMorgan | service/bottin/read.go:204-273 | De Morgan's laws hold of the evaluation itself, errors and early answers included. |
| DiskCache.S3Cache.Store | lib/s3cache/s3cache.go:224-269 | Whatever step fails: every disk state on the way is consistent, and the tracked sizes end within the capacity or no higher than they were. What was tracked still is, unless more is written than before and metadata size, tracked sizes and growth together exceed the capacity; then all of it is gone (`Spared`). |
| DiskCache.S3Cache.ReclaimSpace | lib/s3cache/s3cache.go:281-318 | Evicts everything for a positive difference and nothing otherwise; metadata before files. |
| DiskCache.S3Cache.Remove | lib/s3cache/s3cache.go:150-169 | Removes the entry; metadata before file. |
| DiskCache.S3Cache.ReadCached | lib/s3cache/s3cache.go:175-189 | A hit returns the bytes last stored for the key, with the expected hash, and occurs exactly when the entry is tracked under that hash and the read does not fail; it changes the time of its last use and nothing else. |
| DiskCache.S3Cache.Persist | lib/s3cache/metadata.go:90-108 | Replaces the metadata file as a whole or leaves it. |
| DiskCache.S3Cache.WriteAndPut | lib/s3cache/s3cache.go:253-262 | Writes the data file and tracks it. |
| DiskCache.S3Cache.CacheSize | lib/s3cache/metadata.go:194-204 | The loop returns the sum of the tracked sizes. |
| DiskCache.S3Cache.LruHeap | lib/s3cache/metadata.go:207-227 | All tracked entries, the least recently used first, for every map order. |
| DiskCache.S3Cache.constructor | lib/s3cache/metadata.go:60-87 | A start from any disk state a crash can leave establishes the invariant, whatever the capacity computed at this start; the times of the last uses start as those of the stores. |
| DiskCache.CrashTears | lib/s3cache/s3cache.go:258-264 | A crash between a rewritten data file and its metadata leaves a consistent disk from which the next start serves other bytes under the old hash, unless the bytes were the same. |
| RouteReconciliation.Router.ConfigureRoutes | service/net/router/router.go:165-216 | On success a route is kept if and only if the cluster asks for it (`AsksFor`: some node that is not the local one has an internal address, and the route is the direct one to that address with 32 bits, or goes by it to one of the node's networks); while routes are added, every gateway route's gateway has its direct route, and, under the condition of `RemovingSafeIff`, while they are removed as well; a route that stays is never missing in between. |
| RouteReconciliation.Router.AddAll | service/net/router/router.go:199-204 | The first loop, for any order the sort leaves among equals. |
| RouteReconciliation.Router.RemoveStale | service/net/router/router.go:206-213 | The second loop, for every map order; under the condition of `RemovingSafeIff` no gateway is lost on the way. |
| RouteReconciliation.Router.Derive | service/net/router/router.go:165-183 | The loops over nodes and their networks derive exactly the routes the cluster asks for. |
| RouteReconciliation.DesiredExactly | service/net/router/router.go:165-183 | A route is derived if and only if the cluster asks for it, node by node. |
| RouteReconciliation.SortRoutes | service/net/router/router.go:155-163 | A permutation with the direct routes first. |
| RouteReconciliation.DesiredClosed | service/net/router/router.go:168-183 | The desired routes hold a direct route for every gateway. |
| RouteReconciliation.DirectFirst | service/net/router/router.go:194-204 | When a gateway route is next, the direct route of its gateway was there or came before. |
| RouteReconciliation.RemovingSafeIff | service/net/router/router.go:206-213 | Every order of removing the stale routes keeps every gateway reachable at every step if and only if no stale route goes by a gateway whose own direct route is stale. |
| RouteReconciliation.RemovingCanStrand | service/net/router/router.go:206-213 | For any gateway and network, a cluster change after which this condition does not hold. |
| RouteReconciliation.Router.Run | service/net/router/router.go:78-99 | After each event up to the first failure the routes are exactly those its cluster asks for; the cleanup comes in any case, and a run that reports no failure leaves none. |
| ConnectionPool.RunsConserve | lib/ldap/pool.go:38-154 | In every interleaving of workers and callers: tokens in demand, pooled connections, fills and returns in flight never exceed the size, and equal it until the cancellation. |
| ConnectionPool.StepCounts | lib/ldap/pool.go:62-154 | Every step keeps their number but the one that abandons a connection. |
| ConnectionPool.SendsNeverBlock | lib/ldap/pool.go:90-143 | Whoever is about to send finds room in the channel. |
| ConnectionPool.NeverStuck | lib/ldap/pool.go:68-152 | Before the cancellation, while a caller asks, some worker or caller can move. |
| ConnectionPool.EachInOnePlace | lib/ldap/pool.go:38-154 | In every interleaving, each connection that a successful dial has made is in exactly one place (the pool, a worker, a caller, closed), and nothing else is anywhere. |
| ConnectionPool.GotForOneself | lib/ldap/pool.go:117-143 | What a caller gets comes from a dial that succeeded, is not closed, is not in the pool any more, and no worker and no other caller has it. |

## Left out

- Cursor.SizeTagAndLength: tags of 31 and more, which LDAP does not use, are not sized.
- Cursor.Bytes.WriteTagAndLength: tags of 31 and more are parsed but not written; the writer of base-128 tags is not modelled.
- Framing.Stream.ReadBytes: a read returns all the bytes asked for; short reads of a socket, which the code does not loop over, are not modelled.
- BerInteger.ParseInt64: Go's `int` is taken for unbounded apart from the explicit 32-bit and 64-bit widths; buffers of 2^63 bytes and more are not modelled.
- LdapRead.ReadExtendedRequest: the password modification inside an extended request is not decoded.
- LdapTheory.RoundTrip: error texts are not modelled; an error and a recovered panic are the same failure.
- SortedMaps.SortedMap.Store: the insides of the B-tree are a sorted sequence; writers that race with each other are not modelled, and `Less` is the order of the printed keys, as it is for every key type of the repository.
- Replica.Table.HandleEvents: the waiting between tries, the JSON form of a notice and events of an unknown type are not modelled.
- Convergence.Converges: a replica that also writes, transactions that announce and then fail to commit, and commits in another order than their notices are outside the hypothesis; nor does the model start with the listing that fills the cache before it listens.
- Names.ParsePrint: trimming and lower-casing are those of ASCII; the cases and blanks of other Unicode characters are not modelled.
- Names.ParsedCanonical: the same.
- DirectoryStore.Mem.List: locks and calls that run at the same time are not modelled.
- DirectoryStore.CloneEntry: the lists of values are values; Go slices that share an array, which the code appends to and replaces but never overwrites, are not modelled.
- DirectoryStore.Psql.List: entries are values; the code hands out the cached maps here too, so an edit in place shows in the replica that made it before it is committed, and in no other.
- BottinServer.Bottin.Add: access rules and the values of clock, caller and random identifiers are parameters.
- BottinServer.Bottin.Initialize: the object classes of the base entry, constants of the code, are parameters.
- BottinServer.Bottin.Modify: keys are compared in lower case; the loop that adopts the spelling of a stored key is left out, since all stored keys are in lower case. Access rules are a flag and a set of attributes.
- FilterMatch.FilterMeans: what `Search` does around the filter, among it a base scope that skips the base entry itself, is not modelled.
- CalendarStore.Online.ListCalendars: the contents of objects, which the online store fetches from S3 in parallel after the listing, are not modelled.
- DiskCache.S3Cache.Store: calls that run at the same time, the size of the JSON text (any number), and the uploads and downloads around the cache are not modelled; identifiers are taken to be fresh.
- RouteReconciliation.Router.ConfigureRoutes: the kernel's table is not modelled, only the routes the program keeps and the success or failure of each call.
- ConnectionPool.RunsConserve: whether a connection is alive is a free choice; the tries of one dial are one dial, which takes no time.
- LinearizeMemo.Renderer.Linearize: the digest of the key is taken to tell keys apart.
- HTTP, WebDAV and web handlers, password hashing, metrics, tracing, readiness and the Kubernetes and wireguard parts are not part of this model.
