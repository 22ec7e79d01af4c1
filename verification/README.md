# Verification model of the kit web server

Dafny models of four parts of the repository, with proofs of what they are for.

**X.509 (`x509.c`).** The DER layer, INTEGER, UTF-8 and time parsers, distinguished and general names, extensions
and the certificate itself are methods with the branches and loops of the C functions. Each is proved equal to a
specification function on octet sequences (the functions named `...At`), and the lemmas say what those functions
accept: exactly the encodings, in one way, unaffected by what follows. `Containers.dfy` treats the loops over
elements once; names, general names, access descriptions, extensions, policies, distribution points and revoked
entries use it. The table of extensions has its identifiers; the handlers of access descriptions, key usage, policies,
alternative names, basic constraints and distribution points are modelled whole, and what their flags say about an
accepted certificate is proved. Other tables, and the handlers of single algorithms and of the other extensions, are
parameters, except the DSA signature handler, which is modelled whole.

**The work queue and the semaphore (`kit_webServer.h`, `base.h`, `base.c`).** Transition systems whose steps are single
loads, stores, swaps, mutex and condition operations, for any number of threads and every interleaving. History
fields (tickets without wrap-around, published items, deliveries) state what the queue did. The queue is correct
under conditions that the theorems give exactly; two runs show what happens outside them.

**Arena, text and numbers (`base.c`, `base.h`).** The arena as a class over its mutable fields with the committed octets
beside it, the mask arithmetic of `alignUp`, the decimal printers and reader, search and replace, and the brace
templates with a grammar, a meaning and the one-pass scanner.

**The HTTP head scanner (`kit_webServer.h`).** The resumable cursor as a class, and the round trip with written heads.

Octets are integers from 0 to 255; masks and shifts are written as division and remainder. Wrap-around in 32 and 64
bits is written out where a caller can reach it. Failing parsers return `None`; which error code they return is not
modelled.

| file | content |
|---|---|
| Bytes, Modular, Bits | numbers as octets, remainders, masks |
| Der, DerInteger | elements, lengths, INTEGER, the DSA signature value |
| DerTags | identifier octets of any number |
| Utf8, X509Time, X509Calendar | UTF-8 strings, times and validity, times against the calendar |
| Containers, Elements, Names, NameForms, GeneralNames, GeneralNamesRoundTrip, Extensions | element loops and what is built from them, with the accepted octets spelt out |
| Policies, DistributionPoints, PolicyForms, RevokedEntries | policies, CRL distribution points, entries of a CRL |
| PoliciesRoundTrip, DistributionPointsRoundTrip, ExtensionsRoundTrip | the same put together from their meanings, and extension blocks |
| ExtensionHandlers, ExtensionMeaning, ExtensionOctets | the handlers of certificate extensions, what the flags they leave mean, and both in octets |
| Certificate, CertificateLayout, CertificateForms, CertificateRoundTrip | the certificate parser, what acceptance means, and certificates put together |
| SpmcQueue, SpmcTheorems, SpmcFifo, SpmcSolo, SpmcObject | the queue: steps and invariant, runs of many consumers, one consumer, calls alone, the object |
| Semaphore, SemaphoreWaits | the semaphore as a monitor protocol, and what a single wait does |
| Arena, ArenaAlignment, ArenaObject | arena states and runs, what is rounded to what, the object |
| Decimal, ReplaceAll, Template, TemplateMeaning | numerals, replacement, templates and what they print |
| HttpHead | the request head |

Where the code departs from what its names or comments suggest, the code is followed and the exact condition is a
theorem: overlapping patterns and patterns starting at 0x80 or above in `str_replaceAll`, keys of one character and
the order of placeholder numbers in `str_fmt` (an unnumbered placeholder counts every placeholder before it), the
constant `u32_max` being 0x7FFFFFFF, strings and serial numbers of 128 octets or more, the second character of a domain
component, the length a user notice announces, the lengths announced by the explicit tags of the version and of the
extensions, octets behind the extensions of a revoked entry, the flag that distribution points and freshest lists
share, late swaps and late reads in the queue, counts beyond 32 bits in the semaphore, sizes near 2^64 in the arena,
and a lone closing brace in a template, which leaves a recording open.

## Model

| member | source | states |
|---|---|---|
| Der.ScanBase128 | x509.c:5516-5565 | the base-128 scan stops at the first octet below 128 within four, or fails |
| Der.ExtractComplexTag | x509.c:5516-5565 | the number and its octet count are those of the base-128 number the buffer begins with |
| Der.ArcExact | x509.c:5516-5565 | a high tag number is accepted iff the buffer begins with one to four base-128 octets ending at the first octet below 128, and its value is theirs |
| Der.GetIdentifier | x509.c:5567-5628 | class, constructed bit, number and size of the identifier octets, or failure, on every buffer |
| Der.IdentifierExact | x509.c:5567-5628 | identifier octets are accepted iff they are an identifier of that class and number (section 8.1.2 of X.690) |
| Der.GetLength | x509.c:5630-5763 | header and content size of the length octets, or failure, on every buffer |
| Der.LengthExact | x509.c:5630-5763 | length octets are accepted iff they are the shortest definite form of a value below 2^32 and the content fits (sections 8.1.3 and 10.1 of X.690) |
| Der.ParseIdLen | x509.c:5765-5830 | header and content size of an element of the expected class and number, or failure |
| Der.TlvExact | x509.c:5765-5830 | an element is accepted iff the buffer begins with a distinguished header of that class and number and holds the content; the extent is unique |
| Der.LowTagHeaders | x509.c:5765-5830 | for numbers below 31 the accepted headers are exactly the two the encoder can produce |
| Der.AcceptsExactlyEncodings | x509.c:5765-5830 | for numbers below 31: accepted iff the buffer begins with an encoded header, either constructed bit, whose content fits |
| Der.EncodeThenParse | x509.c:5765-5830 | parsing an encoded element, whatever follows it, gives back its sizes and its content |
| Der.AppendStable | x509.c:5765-5830 | appended octets never change acceptance or result |
| Der.ParseExplicitIdLen | x509.c:5832-5879 | the sizes of the inner element behind an explicit tag; inner and outer length are not tied, as in the code |
| Der.ExplicitExact | x509.c:5832-5879 | accepted iff the buffer begins with an encoded header of the tag, announcing any length that fits, and behind it with an encoded header whose content fits |
| Der.ExplicitTiedExactly | x509.c:5832-5879 | the two are one element inside another iff the tag announces all octets of the inner element |
| Der.AnnouncementIsFree | x509.c:5832-5879 | any announced length that fits gives the same result |
| Der.TagAnnouncesNothing | x509.c:5832-5879 | a tag that announces no octets at all is accepted with an element behind it |
| DerTags.GroupReads | x509.c:5516-5565 | every number below 2^28, in base-128 digits and followed by anything, is read back |
| DerTags.IdentifierRoundTrip | x509.c:5567-5628 | class, constructed bit and number of every identifier below 2^28 are read back |
| DerInteger.ParseIntegerCore | x509.c:6027-6080 | an INTEGER element with non-empty, minimal and (on request) non-negative content, or failure |
| DerInteger.ParseInteger | x509.c:6082-6088 | the same without the sign condition |
| DerInteger.ParseNonNegativeInteger | x509.c:6090-6096 | the same with the sign condition |
| DerInteger.MinimalIsShortest | x509.c:6046-6074 | contents pass the two-octet test iff no other contents of the same two's-complement value are shorter (section 8.3.2 of X.690) |
| DerInteger.MinimalIsUnique | x509.c:6046-6074 | accepted contents of equal value are identical octets |
| DerInteger.NaturalRoundTrip | x509.c:6027-6080 | every natural number has an accepted non-negative form, and it means that number |
| DerInteger.IntegerAcceptsShortest | x509.c:6027-6080 | an INTEGER element is accepted iff its header is and its content is the shortest of its value |
| DerInteger.DsaExtractRS | x509.c:8882-8994 | offsets and sizes of r and s in a DSA-style signature value, or failure, on every buffer |
| DerInteger.SignatureRoundTrip | x509.c:8882-8994 | for all naturals r and s whose encoding fits the length limits: the encoded signature is eaten whole and the two slices are disjoint, in order and mean r and s |
| DerInteger.AcceptedSignatureIsEncoding | x509.c:8882-8994 | conversely every accepted signature value is the encoding of two naturals, and the reported slices are theirs |
| Utf8.CheckUtf8String | x509.c:6337-6447 | true iff the string is non-empty and the encoding of some sequence of Unicode scalars (section 4 of RFC 3629) |
| Utf8.EncodingStep | x509.c:6355-6440 | a string is an encoding iff it begins with one well-formed unit and the rest is an encoding |
| Utf8.EncodeInjective | x509.c:6337-6447 | an accepted string encodes one scalar sequence only |
| Utf8.Utf8Count | base.c:397-424 | the number of strides over the string, a stride cut off at the end not counted |
| Utf8.CountsScalars | base.c:397-424 | on every encoding that number is the number of scalars |
| Utf8.CutOffIsNotCounted | base.c:397-424 | a last sequence that is cut off is not counted |
| X509Time.CheckDigits | x509.c:6144-6190 | true iff the first n octets are decimal digits |
| X509Time.ParseUtcTime | x509.c:6144-6239 | kind, size and components of a UTCTime, or failure, on every buffer |
| X509Time.ParseGeneralizedTime | x509.c:6249-6335 | the same for GeneralizedTime |
| X509Time.ParseTime | x509.c:6942-6990 | dispatch on the tag octet |
| X509Time.TimeExact | x509.c:6144-6335 | a time is accepted with given components iff the buffer begins with the canonical text of an in-range time of that kind |
| X509Time.TimeComponentsToComparable | x509.c:9720-9748 | the packed number, within 64 bits |
| X509Time.PackIsOrderIsomorphism | x509.c:9720-9748 | numeric order of packed times is calendar order, and packing is injective |
| X509Time.EqualTimesAreIdentical | x509.c:6922-6990 | two accepted times in correct use that pack equally are the same octets |
| X509Time.BoundExact | x509.c:6922-6990 | a bound is accepted iff it is the text of its time in the prescribed form: UTCTime through 2049, GeneralizedTime after |
| X509Time.ParseValidity | x509.c:2618-2705 | packed bounds and size of a Validity, or failure, on every buffer |
| X509Time.ValidityExact | x509.c:2618-2705 | a Validity is accepted iff its content is two such bounds, the first strictly earlier, and nothing else (section 4.1.2.5 of RFC 5280) |
| X509Calendar.RealDatesAreAccepted | x509.c:6922-6990 | every real date from 1950 to 9999, leap years included, is accepted in its prescribed form and read as that date |
| X509Calendar.RealDatesExactly | x509.c:6144-6335 | nothing outside the ranges is accepted; the real dates are the accepted times whose month and day are not zero and whose day the month has |
| X509Calendar.NotInTheCalendar | x509.c:6144-6335 | the thirty-first of February and day zero of month zero are accepted |
| X509Calendar.FirstOfTwoDigits | x509.c:6144-6239 | "500101000000Z" is the first second of 1950 |
| X509Calendar.LastOfTwoDigits | x509.c:6144-6239 | "491231235959Z" is the last second of 2049 |
| X509Calendar.FirstOfFourDigits | x509.c:6249-6335 | "20500101000000Z" is the first second of 2050 |
| Containers.SplitExact | x509.c:8290-8345 | a container loop over a stable element parser succeeds with a list of parts iff each is a whole element and together they are the content |
| Containers.SplitUnique | x509.c:8290-8345 | content is cut into whole elements in one way only |
| Names.ParseOid | x509.c:5959-6025 | size of the object identifier element the buffer begins with, or failure |
| Names.OidStable | x509.c:5959-6025 | appended octets do not change it |
| Names.CheckString | x509.c:6449-6643 | true iff every octet belongs to the character set of the string type |
| Names.ParseStringValue | x509.c:7536-7629 | true iff type, raw length octet, bounds and characters of a string value are in order |
| Names.ParseDomainComponent | x509.c:7953-8015 | true iff the value is a domain component as the code checks it (the second character is not looked at) |
| Names.DomainComponentExact | x509.c:7953-8015 | the proper labels are the accepted components whose second character is a letter, digit or hyphen |
| Names.SecondCharacterIsFree | x509.c:7953-8015 | a component with an exclamation mark for its second character is accepted |
| Names.StringRuleExact | x509.c:7536-7629 | a DER-encoded string meets its rule iff its type, bounds and characters do and it is shorter than 128 octets |
| Names.LongStringIsRefused | x509.c:7536-8015 | an encoded string of 128 octets or more passes no rule that looks at its value, whatever its type and characters, second chances included; an unchecked type lets it through |
| NameForms.CharsetExact | x509.c:6449-6643 | the characters of the five string types, as letters, numerals and signs; other types have none |
| NameForms.RuleExact | x509.c:7536-8015 | an encoded string meets a rule iff it is shorter than 128 octets and has a type, a size and characters of that rule, spelt out for each |
| NameForms.OidExact | x509.c:5959-6025 | an object identifier is accepted iff it is one element of one to twenty-one arcs of one to four octets |
| NameForms.AttributeExact | x509.c:8203-8264 | an attribute is accepted iff it is one SEQUENCE of an identifier and a value that meets the rule the table has for it, if any |
| NameForms.OneOrganization | x509.c:8311-8354 | the fourteen octets of the name with one organization, "A" |
| Names.ParseAttributeTypeAndValue | x509.c:8203-8264 | size of an attribute whose value meets the rule of its type, or failure |
| Names.ParseRelativeDistinguishedName | x509.c:8266-8309 | size of a relative name, or failure |
| Names.ParseName | x509.c:8311-8354 | size of a name and its empty flag, or failure |
| Names.NameStable | x509.c:8311-8354 | appended octets do not change the result |
| Names.NameSplits | x509.c:8311-8354 | a name is accepted iff its content is a concatenation of relative names; that cut is unique, and the empty flag means there are none |
| Names.RdnSplits | x509.c:8266-8309 | the same one level down, for attributes |
| Names.AttributeRoundTrip | x509.c:8203-8264 | an encoded attribute that meets its rule is eaten whole |
| Names.RdnRoundTrip | x509.c:8266-8309 | an encoded relative name is eaten whole |
| Names.NameRoundTrip | x509.c:8311-8354 | every name tree that meets its rules, encoded and followed by anything, is eaten exactly, empty only without relative names |
| GeneralNames.ParseGeneralName | x509.c:6645-6814 | size of a general name of one of the five kinds let through (RFC 822, DNS, URI, address, directory), or failure; the other kinds are refused |
| GeneralNames.ParseGeneralNames | x509.c:6816-6855 | true iff the content is covered by general names |
| GeneralNames.GeneralNamesStable | x509.c:6645-6814 | appended octets do not change a general name |
| GeneralNames.GeneralNamesSplit | x509.c:6816-6855 | accepted iff the content is a concatenation of general names, cut in one way |
| GeneralNames.ParseAccessDescription | x509.c:7261-7342 | size of an access description, or failure |
| GeneralNames.ParseAia | x509.c:7344-7405 | true iff the value is a non-critical non-empty list of access descriptions |
| GeneralNames.AiaSplits | x509.c:7344-7405 | accepted iff it is one SEQUENCE over all octets whose content is a non-empty concatenation of access descriptions |
| GeneralNamesRoundTrip.GeneralNameRoundTrip | x509.c:6645-6814 | every general name of a kind let through, encoded and followed by anything, is eaten exactly |
| GeneralNamesRoundTrip.GeneralNamesRoundTrip | x509.c:6816-6855 | so is every list of them under any expected tag below 31 |
| GeneralNamesRoundTrip.GeneralNameExact | x509.c:6645-6814 | a general name is accepted iff it is one of four identifier octets with its size and characters below 128 (an address: any octets), or 0xA4 around one name |
| GeneralNamesRoundTrip.AccessExact | x509.c:7261-7342 | an access description is accepted iff it is one SEQUENCE of one of two identifiers and one general name |
| GeneralNamesRoundTrip.AiaRoundTrip | x509.c:7344-7405 | every encoded list of one access description or more is accepted |
| Elements.ElementOfWhole | x509.c:3326-3389 | whole elements are the encodings of content of their kind, with either constructed bit |
| Elements.ListExact | x509.c:3326-3389 | a loop over a stable element parser succeeds iff the content is a concatenation of whole elements |
| Policies.ParseDisplayText | x509.c:8356-8432 | size of a display text, or failure; a BMPString is always refused |
| Policies.ParseNumbers | x509.c:3120-3133 | true iff the list is covered by INTEGER elements |
| Policies.ParseNoticeReference | x509.c:3071-3141 | size of a notice reference, or failure |
| Policies.ParseUserNotice | x509.c:3143-3196 | true iff the optional reference and text use all octets behind the header |
| Policies.ParsePolicyQualifierInfo | x509.c:3198-3273 | size of a qualifier, or failure |
| Policies.ParsePolicyInformation | x509.c:3275-3346 | size of a policy, or failure |
| Policies.ParseCertPolicies | x509.c:3348-3395 | true iff the extension value is a list of policies |
| Policies.NoticeSplits | x509.c:3071-3141 | a notice reference is accepted iff it is display text and one list that INTEGER elements cover |
| Policies.PolicySplits | x509.c:3275-3346 | a policy is accepted iff it is an identifier alone or an identifier and one list that whole qualifiers cover |
| Policies.PoliciesSplit | x509.c:3348-3395 | the value is accepted iff it is one SEQUENCE over all octets that whole policies cover |
| Policies.UserNoticeExact | x509.c:3143-3196 | accepted iff it is an encoded header that announces at least one octet and no more than follow, and the optional parts behind it use all that follow |
| Policies.NoticeTiedExactly | x509.c:3143-3196 | an accepted notice is one encoded SEQUENCE iff it announces all octets behind its header |
| Policies.NoticeLengthIsNotTied | x509.c:3143-3196 | a user notice that announces one octet and uses three is accepted |
| PolicyForms.DisplayTextExact | x509.c:8356-8432 | a display text is accepted iff it is UTF-8, IA5 or visible characters, at least one, under the tag for it |
| PolicyForms.NumberExact | x509.c:3120-3133 | a number is accepted iff it is one INTEGER in its shortest form, of either sign |
| PolicyForms.NoticePartsExact | x509.c:3143-3196 | the parts of a notice are accepted iff they are an optional reference and an optional text |
| PolicyForms.QualifierExact | x509.c:3198-3273 | a qualifier is accepted iff it is the identifier of links with a link, or that of notices with a notice, octet by octet |
| PoliciesRoundTrip.QualifierIsWhole | x509.c:3198-3273 | every encoded qualifier, a link or a notice with reference, text or both, is eaten whole |
| PoliciesRoundTrip.PoliciesRoundTrip | x509.c:3348-3395 | every encoded list of policies, each with its identifier and any list of qualifiers, is accepted |
| DistributionPoints.ParseNineBitNamedBitList | x509.c:7008-7103 | none unless the list has one to nine bits and ends in a set one; else the number the code assembles, each octet mirrored |
| DistributionPoints.NamedBitMeans | x509.c:7050-7096 | bit i of that number is named bit i: the i-th from the top of the first octet, and the ninth iff there is a second octet |
| DistributionPoints.NamedBitsUnique | x509.c:7008-7103 | a set of named bits has one accepted list |
| DistributionPoints.NamedBitsExist | x509.c:7008-7103 | every set of named bits that is not empty has a list, so lists and sets correspond one to one |
| DistributionPoints.ParseCrldpReasons | x509.c:7105-7139 | size of the reasons, or failure |
| DistributionPoints.ParseDistributionPoint | x509.c:7141-7259 | size of a point and whether it covers all reasons, or failure |
| DistributionPoints.ParseExtCrldp | x509.c:4156-4213 | whether some point covers all reasons, or failure |
| DistributionPoints.PointsExact | x509.c:4190-4207 | the loop accepts iff the content is a concatenation of whole points, and its flag is raised iff one of them covers all reasons |
| DistributionPoints.CrldpSplits | x509.c:4156-4213 | the same for the whole extension value |
| PolicyForms.PointNameExact | x509.c:7141-7259 | the name of a point is accepted iff it is general names in a constructed element inside another |
| PolicyForms.PointExact | x509.c:7141-7259 | a point is accepted iff it is an optional name, optional reasons and an optional issuer, with a name or an issuer; it covers all reasons iff it names none |
| DistributionPointsRoundTrip.PointRoundTrip | x509.c:7141-7259 | every encoded point with a name or an issuer, and any reasons, is one point, and covers all reasons iff it names none |
| DistributionPointsRoundTrip.CrldpRoundTrip | x509.c:4156-4213 | every encoded list of points is accepted, and its flag is whether one of them names no reasons |
| RevokedEntries.ParseEntryExtensions | x509.c:10100-10166 | size of a list of entry extensions, or failure |
| RevokedEntries.ParseRevokedCertificate | x509.c:10168-10256 | size of a revoked entry, or failure |
| RevokedEntries.ParseRevokedCertificates | x509.c:11463-11517 | size of the optional list of entries and whether there are any, or failure |
| RevokedEntries.EntriesSplit | x509.c:11498-11509 | where a SEQUENCE begins the list is accepted iff its content is a concatenation of whole entries |
| RevokedEntries.EntriesAbsent | x509.c:11476-11496 | without a SEQUENCE nothing is eaten, which is accepted unless the octets have ended |
| RevokedEntries.EntryExtensionsExact | x509.c:10100-10166 | a list of entry extensions is accepted iff it is a concatenation of known extensions, none twice, on which the handlers agree, and there is one way to cut it |
| RevokedEntries.EntryExact | x509.c:10168-10256 | an entry is accepted iff it is a serial number, a date in its prescribed form and, in version 2 only, optionally a list of extensions with any octets behind it |
| RevokedEntries.EntryPartsUnique | x509.c:10168-10256 | an entry is read in one way, so what is left over is determined too |
| RevokedEntries.AnythingMayFollow | x509.c:10240-10252 | any octets at all may stand behind the extensions of an entry |
| ExtensionsRoundTrip.EntriesRoundTrip | x509.c:11463-11517 | every encoded list of entries, followed by anything, is eaten exactly, and the report is whether there was one |
| Extensions.ParseBoolean | x509.c:6098-6137 | size of a DER BOOLEAN, or failure |
| Extensions.FindExtByOid | x509.c:4527-4555 | the first table entry with that identifier |
| Extensions.CheckRecordExtUnknown | x509.c:4557-4588 | on the list in place: a repeated extension is found, a new one is appended, nothing else changes; the list stays a duplicate-free prefix |
| Extensions.FullListHoldsAll | x509.c:4557-4588 | by pigeonhole a full list already holds any extension asked about, so its capacity error is unreachable |
| Extensions.ParseFields | x509.c:4590-4680 | identifier, critical flag and value of one extension, or failure |
| Extensions.ParseExtension | x509.c:4590-4714 | one step of the extension loop: refused when the identifier was met before or its handler refuses, else recorded |
| Extensions.ParseExtensions | x509.c:4716-4791 | size and flags of the extension block, or failure |
| Extensions.LoopExact | x509.c:4748-4770 | the loop accepts iff the content is a concatenation of extensions, no identifier of the table occurs twice and all handlers agree |
| Extensions.AnyAnnouncement | x509.c:4716-4791 | the length the explicit tag announces, as long as it fits, changes neither acceptance nor flags nor octets used |
| Extensions.TagTiedExactly | x509.c:4716-4791 | accepted extensions are a SEQUENCE inside a tagged element iff the tag announces all they use |
| Extensions.NoKnownExtensionTwice | x509.c:4716-4791 | an accepted block is cut into extensions in one way, and no two carry the same known identifier (section 4.2 of RFC 5280) |
| ExtensionsRoundTrip.ExtReads | x509.c:4590-4714 | every encoded extension is read back: identifier, critical mark and value |
| ExtensionsRoundTrip.FieldsExact | x509.c:4645-4700 | behind the identifier stand no mark, FALSE or TRUE, and one OCTET STRING, and nothing else; either mark means critical |
| ExtensionsRoundTrip.ExtensionExact | x509.c:4590-4714 | an extension is accepted iff it is one SEQUENCE of an identifier and those, and what is read are its parts |
| ExtensionsRoundTrip.LoopIsRun | x509.c:4748-4770 | the loop over encoded extensions does what the handlers do over their meanings, unless a known identifier repeats |
| ExtensionsRoundTrip.BlockRoundTrip | x509.c:4716-4791 | an encoded block is accepted iff it is not empty, no known identifier repeats, the handlers agree and an empty subject has a critical alternative name; the flags are what the handlers leave |
| ExtensionHandlers.HandledAt | x509.c:4386-4450 | each of the sixteen identifiers with a handler is found at its own index |
| ExtensionHandlers.ParseKeyUsage | x509.c:2988-3042 | the nine bits of a key usage whose restrictions come with key agreement, or failure |
| ExtensionHandlers.ParseBasicConstraints | x509.c:3684-3768 | authority and path limit, in the four forms of content the code takes, or failure |
| ExtensionHandlers.ParseSan | x509.c:3483-3559 | true iff the value is a non-empty list of alternative names |
| ExtensionHandlers.SanExact | x509.c:3483-3559 | an encoded list of general names is accepted iff it is not empty, no name is, and addresses have four or sixteen octets |
| ExtensionHandlers.HandleExtension | x509.c:4386-4450 | acceptance and new flags by the handler of each index |
| ExtensionOctets.IdentifierOctets | x509.c:4269-4285 | the identifiers of the modelled handlers, octet by octet |
| ExtensionOctets.TakenByIdentifier | x509.c:4386-4450 | an extension with one of those identifiers is taken iff its value is of that handler's kind |
| ExtensionOctets.BasicExact | x509.c:3684-3768 | a basic constraints value is accepted with a meaning iff it is one SEQUENCE around contents spelt out for that meaning |
| ExtensionOctets.AuthorityInOctets | x509.c:3684-3768 | an accepted value is an authority iff its content has three octets or more and the third is not zero, and limits paths iff it has more; the empty SEQUENCE is neither |
| ExtensionOctets.UsageExact | x509.c:2988-3042 | a key usage is accepted iff it is one BIT STRING of named bits whose two restrictions come with key agreement |
| ExtensionOctets.AuthorityUsage | x509.c:2988-3042 | the four octets 03 02 01 06 allow signing certificates and lists, and no key agreement |
| ExtensionMeaning.FirstExact | x509.c:4527-4555 | an extension is found under an index iff some part carries it |
| ExtensionMeaning.ChainMeans | x509.c:4748-4770 | without repetitions the handlers agree iff each takes its own value, and the flags do not depend on the order, but for the two lists of points |
| ExtensionMeaning.BlockExact | x509.c:4716-4791 | a block is accepted iff it is a concatenation of extensions, none known twice, each taken by its handler, with a critical alternative name for an empty subject; every flag is that of its extension |
| ExtensionMeaning.AcceptedObeysRules | x509.c:4910-4990 | an accepted certificate obeys the rules between its extensions: certificate signing only for critical authorities, list signing only with a subject, path limits only for signing authorities, name constraints only for authorities, all reasons in the later list of points of an authority |
| ExtensionMeaning.RulesFollow | x509.c:4949-4990 | the cross-checks on the flags are exactly those rules on the extensions |
| ExtensionMeaning.GrantsInOctets | x509.c:2988-3042 | which bits of the octets allow signing certificates and signing lists |
| ExtensionMeaning.LaterListDecides | x509.c:4156-4213 | for an authority with distribution points and freshest lists the rule on reasons holds iff the second list has a point for all reasons, whatever the first has |
| ExtensionMeaning.OneListIsLast | x509.c:4156-4213 | without freshest lists the rule is one on the distribution points themselves |
| ExtensionMeaning.AuthorityWithoutPoint | x509.c:4156-4213 | an authority none of whose distribution points covers all reasons passes every check |
| Certificate.CertContext.Zeroize | x509.c:5071-5092 | every field of the context is cleared |
| Certificate.BufsDiffer | x509.c:11932-11944 | true iff the two buffers differ |
| Certificate.ParseVersion | x509.c:1030-1067 | version octet and size, or failure |
| Certificate.ParseCertSerialNumber | x509.c:1069-1093 | size of the serial number; the recorded slice starts two octets in |
| Certificate.ParseAlgorithmIdentifier | x509.c:2466-2540 | table entry, what the parameter handler leaves, size, and slices of object identifier and parameters, or failure |
| Certificate.ParseSigAlgorithmIdentifier | x509.c:2466-2540 | the same, recorded in the context for the signature |
| Certificate.ParseSubjectPublicKeyInfo | x509.c:2707-2767 | the key structure recorded: algorithm, and the slices of its identifier (kept under the name of the object identifier), parameters and key, or failure |
| CertificateForms.AlgorithmExact | x509.c:2466-2540 | an algorithm identifier is accepted iff it is one SEQUENCE of an identifier the table knows and parameters its handler takes; the slices are theirs |
| CertificateForms.KeyExact | x509.c:2707-2767 | a key structure is accepted iff it is one SEQUENCE of an algorithm identifier of the key table and a key its handler takes; the slices are theirs |
| CertificateForms.SerialExact | x509.c:1069-1093 | a serial number is accepted iff it is one INTEGER in its shortest form, of either sign |
| Certificate.ParseTbsHead | x509.c:4793-4885 | version, serial number, algorithm with its inner slices and hash, and issuer recorded, or failure |
| Certificate.ParseTbsRest | x509.c:4887-4990 | validity, subject, key with its inner slices, extensions and flag cross-checks recorded, all octets used, or failure |
| Certificate.ParseTbsContents | x509.c:4830-4990 | both halves and whether issuer and subject are the same octets, or failure |
| Certificate.ParseTbsCertificate | x509.c:4793-4996 | all of the TBS recorded in the context, or failure |
| Certificate.ParseSignatureAlgorithm | x509.c:4998-5033 | the octets behind the TBS repeat the algorithm identifier inside it, or failure |
| Certificate.ParseSignatureValue | x509.c:5035-5069 | size and slices that the signature handler finds in the rest, recorded as slices of the certificate |
| Certificate.ParseCertificate | x509.c:5078-5147 | accepted iff all parts are, the repeated algorithm identifier agrees and nothing is left; the context then holds the record of every part |
| Certificate.ParseCertificateRelaxed | x509.c:11863-11894 | accepted or not, and the size reported in either case, or none where no element begins; the context is that of the strict entry |
| CertificateLayout.AcceptedIsTiled | x509.c:4793-5147 | in every accepted certificate the slices follow one another without gap or overlap to the last octet, and the two algorithm identifiers are equal octets (section 4.1.1.2 of RFC 5280) |
| CertificateLayout.SlicesAreElements | x509.c:4793-4996 | version 2, serial number, algorithm, issuer, validity, subject, key and extensions are whole elements of their kinds, and the kept values and inner slices are theirs (the lengths announced by the explicit tags of version and extensions only have to fit) |
| CertificateLayout.VersionTwoExactly | x509.c:1030-1067 | a buffer begins with version 2 in n octets iff those are an encoded header of the tag, announcing any length that fits, and the INTEGER 2 |
| CertificateLayout.VersionTiedExactly | x509.c:1030-1067 | the version is the INTEGER inside a tagged element iff the tag announces three octets |
| CertificateLayout.VersionBehindEmptyTag | x509.c:1030-1067 | a tag that announces nothing does not keep the version behind it from being read |
| CertificateLayout.NoCertificateRepeatsAnExtension | x509.c:4716-4996 | no accepted certificate carries a known extension twice |
| CertificateLayout.SerialSliceIsContent | x509.c:1069-1093 | the recorded serial slice is the INTEGER content iff that is shorter than 128 octets |
| CertificateLayout.RelaxedIsStrictOnPrefix | x509.c:11863-11894 | the relaxed entry accepts with a size iff the strict one accepts that prefix, with the same record |
| CertificateLayout.RelaxedRefusesExactly | x509.c:11863-11894 | it reports the size of a refused certificate iff the buffer begins with a SEQUENCE of that size which the strict one refuses |
| CertificateLayout.RelaxedIgnoresTrailing | x509.c:11863-11894 | octets after a certificate change nothing for the relaxed entry |
| CertificateLayout.DsaCertificateEndsInTwoNaturals | x509.c:5035-5069 | a certificate accepted under an algorithm with the DSA handler ends in the encoding of two naturals, and the slices kept for them hold those numbers, whatever handlers other algorithms have |
| CertificateRoundTrip.AssembledIsAccepted | x509.c:4793-5147 | a certificate assembled from parts acceptable on their own is accepted, and the record holds exactly where each part was put and what it reads as |
| CertificateRoundTrip.ContentIsAccepted | x509.c:4793-5147 | every serial number, pair of ordered times, pair of names meeting their rules and signature of two naturals, encoded with elements the handlers take, is an accepted certificate if its algorithm has the DSA handler |
| CertificateRoundTrip.SignatureSurvives | x509.c:5035-5069 | the slices kept for the signature hold the two numbers that went into it |
| SpmcQueue.StepKeepsInv | kit_webServer.h:33-51 | every single load, store or swap of any thread keeps the invariant iff a successful swap still finds an unclaimed item |
| SpmcQueue.TimelySwapFindsItem | kit_webServer.h:41-51 | a swap within a lap of claims after its head load finds one |
| SpmcTheorems.RunSafeExactly | kit_webServer.h:33-51 | the invariant holds all along a run iff every successful swap found an unclaimed item |
| SpmcTheorems.TimelyRunIsSafe | kit_webServer.h:33-51 | every interleaving in which fewer than capacity claims fall between a head load and its swap keeps the invariant: tickets claimed once, in order, never ahead of publication, at most capacity less one waiting |
| SpmcTheorems.IntactUntilNextClaim | kit_webServer.h:45-50 | until the next ticket is claimed too, the slot of a claimed ticket holds the item published under it |
| SpmcTheorems.ReadReturns | kit_webServer.h:49-50 | in general the read returns the last item written to that slot: its own iff no later lap has reached it |
| SpmcTheorems.QuiescentConservation | kit_webServer.h:33-51 | if every claim was read in time, delivered values and waiting items together are what was published, as multisets |
| SpmcTheorems.TimelyRunsConserve | kit_webServer.h:33-51 | so for every timely run from the empty queue whose reads come before the next lap |
| SpmcTheorems.LateReadDuplicates | kit_webServer.h:49-50 | a run of the real steps in which a late read delivers one item twice and loses another |
| SpmcTheorems.LateSwapOvertakes | kit_webServer.h:43-48 | a run in which a swap a lap late claims ahead of what was published |
| SpmcFifo.SoleStepIsFifo | kit_webServer.h:33-51 | with one consumer every step is a step of a bounded FIFO of capacity less one items or changes nothing there |
| SpmcFifo.SoleRunIsFifo | kit_webServer.h:33-51 | so is every run, with no timing assumption |
| SpmcFifo.SingleConsumerIsFifo | kit_webServer.h:33-51 | from the empty queue: deliveries are the published items in order, without loss or duplicate |
| SpmcSolo.FullAndEmpty | kit_webServer.h:33-51 | the two comparisons of indices tell a full queue and an empty one |
| SpmcSolo.EnqueueAlone | kit_webServer.h:33-39 | an enqueue without interference stores the item behind the others, or on a full queue leaves everything as it was |
| SpmcSolo.DequeueAlone | kit_webServer.h:41-51 | a dequeue without interference returns the oldest item, or on an empty queue leaves everything as it was |
| SpmcSolo.LoserClaimsNext | kit_webServer.h:41-51 | of two consumers about to swap the same head one gets the item and the other, loading the head again, the next |
| SpmcObject.SpmcQueueI32.constructor | kit_webServer.h:26-31 | an empty queue of the given capacity |
| SpmcObject.SpmcQueueI32.CompareAndSwap | base.h:2728-2735 | success iff the value was the expected one, which then becomes the new one; otherwise the expected value is refreshed |
| SpmcObject.SpmcQueueI32.Enqueue | kit_webServer.h:33-39 | run without interference it is its steps in a row: false and no change when full, else the item published |
| SpmcObject.SpmcQueueI32.Dequeue | kit_webServer.h:41-51 | run without interference it is its steps in a row: false when empty, else the oldest item |
| Semaphore.StepKeepsInv | base.c:2866-2932 | every step of post, wait, wakeup or timeout keeps the invariant iff the addition stays inside 32 bits |
| Semaphore.RunKeepsInv | base.c:2866-2932 | so every run whose additions fit keeps it |
| Semaphore.NoLostWakeup | base.c:2866-2932 | in every such run the count is not negative and taken plus count is posted; while a waiter sleeps, count plus signals already sent by a post under way are no more than the waiters that will still look at the count, which with the mutex free are the woken ones that have not run |
| SemaphoreWaits.ExpiresExactly | base.c:2900-2932 | a wait runs out of time only by its own time-out, asleep and called with a limit |
| SemaphoreWaits.LookExactly | base.c:2915-2924 | a look at the count takes a unit if there is one and sleeps if not; with the time run out it leaves everything as it is and goes |
| SemaphoreWaits.WaitTakesOne | base.c:2900-2932 | in every run a wait without a time-out is still waiting and has taken nothing, or has left with exactly one unit |
| SemaphoreWaits.UnlimitedWaitTakesOne | base.c:2907-2910 | so does every wait without a limit, whatever the run |
| SemaphoreWaits.WaitFindsUnit | base.c:2900-2932 | with a unit there and the mutex free a wait takes it at once, with a limit or without |
| SemaphoreWaits.PostWakes | base.c:2866-2932 | a post of one unit wakes a sleeper, which takes the unit |
| Semaphore.SmallPostsFit | base.c:2866-2883 | callers that post no more than 0x7FFFFFFF units in all never overflow the count |
| Semaphore.PostOverflows | base.c:2866-2883 | a run: 0x7FFFFFFF units and then one leave the count at -0x80000000 |
| Bits.ClearLowBits | base.h:268 | masking with the complement of the low bits subtracts the remainder |
| Bits.MaskIsAlignUp | base.h:268 | the mask form of alignUp on 64-bit words is rounding up iff the sum does not wrap, and zero otherwise |
| Bits.AlignUpBounds | base.h:268 | rounding up yields a multiple, less than one unit above |
| Bits.AlignUpLeast | base.h:268 | and the least such multiple |
| Bits.AlignUpTwice | base.h:268 | aligning to a finer grid first does not change the coarser alignment |
| Arena.DefaultsAreSound | base.h:276 | the default page size and alignment with any reserve of whole units meet what the arena asks of its configuration |
| Arena.PushKeepsOkExactly | base.c:1734-1755 | a push keeps the arena invariant iff position plus granted size does not wrap 64 bits |
| Arena.GrantCoversExactly | base.c:1736-1739 | the granted size covers the request iff rounding does not leave 64 bits |
| Arena.PushWraps | base.c:1740 | asking a fresh 4 MiB arena for 2^64 - 16 octets moves its position into its header |
| Arena.HugeRequestIsGrantedNothing | base.c:1737-1740 | asking it for 2^64 - 1 octets is granted an empty block |
| Arena.BelowKeepsExactly | base.c:1757-1773 | a pop keeps exactly the blocks that end at or below its position |
| Arena.PopKeepsOk | base.c:1757-1773 | a pop to any position keeps the invariant |
| Arena.StopKeepsOk | base.c:1921-1929 | aligning the position at the end of the outermost recording stays inside the committed page and the reserve |
| ArenaAlignment.GrantExact | base.c:1736-1739 | outside recordings the granted size is the least multiple of the alignment not below the request while rounding fits 64 bits; inside it is the request |
| ArenaAlignment.StopExact | base.c:1921-1929 | the end of the outermost recording moves the position to the next multiple, the end of an inner one does not move it |
| ArenaAlignment.SequenceAligns | base.c:1734-1929 | after every sequence, pops going to multiples, the position outside recordings is a multiple of the alignment, even if pushes wrap |
| ArenaAlignment.BlocksStartAligned | base.c:1734-1755 | so every block pushed outside a recording begins at a multiple and is one long |
| ArenaAlignment.WatermarkExact | base.c:1743-1750 | the watermark is the least number not below the position that is whole pages or the reserve |
| ArenaAlignment.PopToExact | base.c:1757-1773 | a pop ends where it is told to, not below the header, and never moves up |
| ArenaAlignment.PopByExact | base.c:1774-1776 | popping an amount is popping to that much below the position; more than there is pops nothing |
| Arena.AnySequenceKeepsOk | base.c:1734-1929 | every sequence of pushes, pops, nested recordings and scratch scopes whose pushes do not wrap keeps header <= pos <= cap, commitPos == min(alignUp(pos, page), cap) and the live blocks disjoint |
| Arena.ModestSequenceKeepsOk | base.c:1734-1929 | requests that together with reserve and alignment stay in 64 bits never wrap, whatever the states in between |
| Arena.LiveBlocksAreDisjoint | base.c:1734-1755 | no octet belongs to two live blocks, and all lie between header and position |
| Arena.ScratchRestoresExactly | base.c:1778-1787 | a scratch scope restores position and watermark iff the position at the end of its body is not below its start |
| Arena.ScratchUndoes | base.c:1778-1787 | a scratch scope around any body whose pops stay at or above its start gives back the very same arena |
| Arena.AllPopFreeStay | base.c:1778-1787 | bodies without pops of their own, at any depth, never go below their start |
| Arena.RecordingIsContiguous | base.h:1158 | inside a recording, with recordings nested in it and pushes that may find no room, exactly what was taken lies end to end, in order |
| Arena.RecordReports | base.h:1158 | the slice str_record reports holds exactly what its body took, and is none when that is nothing |
| ArenaObject.ArenaAllocator.constructor | base.c:1875-1902 | position behind the header, its pages committed, no recording |
| ArenaObject.ArenaAllocator.NextCommit | base.c:1746-1747 | the watermark, computed with the mask form |
| ArenaObject.ArenaAllocator.Push | base.c:1734-1755 | offset of the new block or none, the new state of every field, committed octets exactly those below the watermark; valid iff the sum fits |
| ArenaObject.ArenaAllocator.PopTo | base.c:1757-1773 | the new state of every field, and decommitted octets exactly those above the new watermark |
| ArenaObject.ArenaAllocator.PopAmount | base.c:1774-1776 | the new state of every field; popping more than there is wraps and pops nothing |
| ArenaObject.ArenaAllocator.StartUnsafeRecord | base.c:1916-1920 | one level deeper; the offset of the position behind the header |
| ArenaObject.ArenaAllocator.StopUnsafeRecord | base.c:1921-1929 | one level up; the outermost end aligns the position |
| ArenaObject.ArenaAllocator.StopRecord | base.h:1158 | the slice recorded since the start, then one level up |
| ArenaObject.ArenaAllocator.ScratchEnd | base.c:1785-1787 | pops to where the scope began |
| Decimal.NumeralMeans | base.c:704-723 | a numeral is canonical and means its number |
| Decimal.NumeralIsUnique | base.c:704-723 | it is the only canonical text of that number |
| Decimal.RecordU64 | base.c:704-723 | sign and canonical numeral of every 64-bit number, within the 21-octet buffer |
| Decimal.ReciprocalTenThousand | base.c:1076-1107 | v * 3518437209 >> 45 is v / 10^4 for every 32-bit v, without 64-bit overflow |
| Decimal.ReciprocalHundredMillion | base.c:1077 | v * 2882303762 >> 58 is v / 10^8 for every 32-bit v, without 64-bit overflow |
| Decimal.UfastUtoa10 | base.c:1065-1152 | the first returned octets of the buffer are the canonical numeral of every 32-bit number, at most ten |
| Decimal.RecordU32 | base.c:727-742 | sign and canonical numeral of every 32-bit number, unused octets given back |
| Decimal.ParseU32N | base.c:252-270 | min(value, 0x7FFFFFFF) of the leading digits, and the index of the first character not taken |
| Decimal.ReadUndoesPrint | base.c:252-270 | reading a printed number, whatever follows, gives it back up to that bound |
| Decimal.LeadingZeros | base.c:252-270 | leading zeros do not change the value read |
| ReplaceAll.FindFirst | base.c:303-327 | the first occurrence from an offset on, or the size; never found when the pattern starts at 0x80 or above |
| ReplaceAll.ContainsSubStringCount | base.c:343-356 | all occurrences, overlapping ones too; zero when the pattern starts at 0x80 or above |
| ReplaceAll.ReplaceAll | base.c:358-392 | size of the result and octets written, on every input |
| ReplaceAll.PassesAgreeExactly | base.c:343-392 | the counting pass counts at least what the copying pass replaces, and the same iff no two occurrences overlap |
| ReplaceAll.PiecesAreLeftmost | base.c:367-390 | every text is its leftmost pieces joined by the pattern |
| ReplaceAll.LeftmostPiecesAreUnique | base.c:367-390 | and has only one list of them |
| ReplaceAll.ReplacesBetweenPieces | base.c:367-390 | replacing puts the replacement between those pieces |
| ReplaceAll.ReplacementIsExact | base.c:358-392 | for a pattern below 0x80 whose occurrences do not overlap the result is the leftmost pieces joined by the replacement, at any size |
| ReplaceAll.OutcomeExact | base.c:358-392 | on every input: the text itself, or the leftmost pieces with the replacement between them and the size the counting pass asks for, in 64 bits |
| ReplaceAll.FillsExactly | base.c:343-392 | the octets written fill the result exactly iff the pattern starts at 0x80 or above, does not occur, or the sizes of the two passes agree in 64 bits |
| ReplaceAll.FillsExactlyBelowTwoGiB | base.c:343-392 | below 2^31 octets: iff the pattern starts at 0x80 or above, no occurrences overlap, or pattern and replacement are equally long |
| ReplaceAll.RightExactly | base.c:303-392 | size and octets are those of the leftmost replacement iff the pattern does not occur, replaces itself, or starts below 0x80 with sizes that agree in 64 bits |
| ReplaceAll.RightExactlyBelowTwoGiB | base.c:303-392 | below 2^31 octets: iff the pattern does not occur, replaces itself, or starts below 0x80 and its occurrences do not overlap or the replacement is equally long |
| ReplaceAll.BorderlessIsApart | base.c:343-356 | occurrences of a pattern without border never overlap |
| ReplaceAll.OverlapOverflows | base.c:358-392 | "aa" by "b" in "aaa": two octets written into an allocation of one |
| ReplaceAll.HighOctetStays | base.c:303-392 | the octet 0xE9 is not replaced in a text that consists of it |
| Template.RecordValue | base.c:863-873 | the text of one value, which ShownReads pins down for each type |
| Template.InsertValue | base.c:787-876 | the text of the argument a placeholder selects, or failure, on every content |
| Template.FmtVargs | base.c:878-958 | on every template the scanner yields the rendering of the tokens the template consists of, with assertions on or off; the recording depth is restored unless a lone closing brace ends the scan |
| Template.ScanUndoesWriting | base.c:889-946 | scanning written tokens gives back exactly those tokens |
| Template.WritingUndoesScan | base.c:889-954 | every text is the writing of its tokens and its ending |
| Template.BodyRoundTrip | base.c:791-862 | reading a written placeholder gives back its reference (an index up to the reader's bound) and its format |
| Template.FormatsToMeaning | base.c:787-958 | every well-formed template formats to its meaning, with assertions on or off; if a placeholder has no argument the assertion fires |
| Template.DoublingEscapes | base.c:904-954 | formatting the brace-doubled form of any string gives that string |
| Template.KeyFoundExactly | base.c:811-841 | a key finds its argument iff it has more than one character and an argument carries it |
| TemplateMeaning.ShownReads | base.c:863-873 | the text of each kind of argument: strings and characters as they are, numbers in canonical form with a minus sign iff negative |
| TemplateMeaning.SpellsOnce | base.c:863-873 | a number has one such text |
| TemplateMeaning.FormatOne | base.c:878-958 | a pair of braces with one argument formats to that text |
| TemplateMeaning.IndexTakes | base.c:791-815 | a number takes the argument at that place, or none |
| TemplateMeaning.KeyTakes | base.c:816-846 | a key takes the first argument that carries it |
| TemplateMeaning.NoKey | base.c:816-846 | and none without one |
| TemplateMeaning.NextTakes | base.c:791-793 | a placeholder without a reference takes the argument whose place is the number of placeholders before it, numbered and keyed ones included |
| TemplateMeaning.NumberThenAnything | base.c:794-800 | behind digits anything but a colon is ignored |
| TemplateMeaning.KeyThenAnything | base.c:816-832 | a key ends at the first colon or closing brace, and has two characters or more |
| TemplateMeaning.FormatExact | base.c:848-861 | a format begins behind a colon at the end of the reference and ends at the next closing brace |
| TemplateMeaning.FormatsToKept | base.c:878-958 | without assertions what has an argument is printed and what has none stays as written |
| TemplateMeaning.NothingToInsert | base.c:878-958 | so without arguments a template comes out as it was written |
| TemplateMeaning.ScanUndoesWritingAll | base.c:889-954 | tokens and ending, written and scanned, are found again |
| TemplateMeaning.EndingExact | base.c:904-954 | behind any text a brace that is never closed is dropped and what follows printed; a lone closing brace loses the text or fires the assertion |
| HttpHead.ScanLine | kit_webServer.h:606-641 | the first three blank-terminated tokens of the first line, and where the line ends, on any data |
| HttpHead.HttpHeader.constructor | kit_webServer.h:606-683 | tokens and start of the fields on any data; the method is GET iff the first token is, and POST likewise |
| HttpHead.HttpHeader.Next | kit_webServer.h:685-722 | true iff a field remains; it is then the first remaining one and the position strictly advances within the data; otherwise nothing remains |
| HttpHead.HttpHeader.Reset | kit_webServer.h:724-726 | the fields remaining are again all fields |
| HttpHead.SkipWhiteSpace | base.c:126-129 | leading spacing and line ends dropped |
| HttpHead.LineRoundTrip | kit_webServer.h:606-683 | a request line of three tokens with any spacing yields those tokens, and the fields begin right behind it (section 3 of RFC 9112) |
| HttpHead.FieldsRoundTrip | kit_webServer.h:685-722 | any list of well-formed fields is read back in order, then nothing (section 5 of RFC 9112) |
| HttpHead.HeadRoundTrip | kit_webServer.h:606-722 | a written body-less head scans to its tokens and its fields |
| HttpHead.BlanksInAscii | base.c:172-182 | which characters are spacing and which end lines, in ASCII |
| HttpHead.FourthTokenSwallows | kit_webServer.h:606-641 | a fourth token on the request line swallows the rest: there are no fields |
| HttpHead.CutTokenIsDropped | kit_webServer.h:606-641 | a token that the end of the data cuts off is not kept |
| HttpHead.ReadAll | kit_webServer.h:685-722 | calling until it returns false collects exactly the remaining fields |
| HttpHead.ReadTwice | kit_webServer.h:606-726 | set up, read, reset, read again: tokens and method are those of the request line, and both readings are the fields |

## Left out

- Sockets, TLS, files, clocks, threads and start-up code: input and output, and calls into the operating system.
- `ws_run` and `ws__worker` around the queue: the first ignores a full queue, so "every accepted socket is handled" does not hold; what the queue guarantees for items it took is stated on the queue.
- The copy of the queue in `tlseserver.c`, and the Windows and macOS semaphores: variants of what is modelled.
- Weak memory: loads and stores of the queue are sequentially consistent here, and its capacity is at least two.
- Policy mappings, policy and name constraints, extended key usages, key identifiers, and a CRL around its entries: one-branch checks, and loops of the shape treated in `Containers.dfy` and `Elements.dfy`. As extension handlers they accept or refuse, and only name constraints leave a flag.
- Handlers of algorithms, curves, hashes and extensions other than those named: parameters of the model, assumed to depend only on the octets they are given and to eat between one octet and all of them.
- Error codes, null-pointer checks and error tracing of the parsers.
- Minimality of object identifier arcs and of high tag numbers: the code accepts leading 0x80 octets, and identifiers are kept as octets.
- ParseExplicitIdLen: does not tie the inner element to the outer length, because the code does not; when they agree is stated by ExplicitTiedExactly.
- PoliciesRoundTrip: the numbers of a notice are naturals; negative ones are accepted too, by NoticeSplits.
- GoodExt: critical marks are written as TRUE; the BOOLEAN FALSE, which the code also takes for a mark, is in ExtensionAt.
- ParseTbsHead: the first part of `parse_x509_tbsCertificate`; ParseTbsRest is the other, and ParseTbsContents joins them.
- ParseSubjectPublicKeyInfo: what the key and parameter handlers leave in the context is one number of the model.
- EntryExtensionsExact: handlers of entry extensions are parameters, and their table refuses unknown identifiers, as the code does.
- CheckString: one loop for the character-set loops of the single string types.
- ParseCertSerialNumber: the slice is recorded as the code records it; when it is not the content is stated by SerialSliceIsContent.
- TimelyRunsConserve: conservation is stated for runs whose reads come in time, because late reads duplicate and lose items.
- Arenas over preallocated memory, whose page size is the buffer size, and arenas whose alignment changes while blocks are live; releasing an arena.
- Push: the arena invariant is claimed only while position plus granted size fits 64 bits; outside that the new state is still stated.
- Floating-point values in templates, and templates followed in memory by a brace (the scanner looks one octet past the end; literals end in NUL).
- FmtVargs: text and argument lists shorter than 2^31, as its indices are 32-bit; the arena it records into is represented by the text recorded.
- ReplaceAll: memory behind the allocation is not modelled; the octets the copying pass writes are listed whatever the allocation holds.
- FillsExactlyBelowTwoGiB: bounded sizes, because beyond them the product may be a multiple of 2^64; FillsExactly has no such bound.
- HttpHead: heads with a body, since the scanner does not stop at the blank line; spacing behind a field value stays part of the value.
- The constructor of HttpHeader is for data below 2^31 octets, as its indices are 32-bit.
- URL parsing, UTF-16 conversion, other searches and parsers of base.c, the HTML builder, vector and float mathematics.
