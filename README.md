# subversion-rs: a Dafny model of the self-contained core

subversion-rs is a Rust binding to the Apache Subversion C libraries. Most of
the crate marshals arguments for a native `svn_*` call and translates the
error that comes back. This project models the parts whose behaviour is
written in Rust, and proves what they promise:

- the in-memory stream backend (`BufferBackend`) and the default methods of
  the `StreamBackend` trait (`src/io/backend.rs`);
- the path comparators and the sorts built on them (`src/sorts.rs`);
- XML headers, escaping, element serialisation and the small element
  parser (`src/xml.rs`);
- certificate logic: validity windows, hostname matching with single-label
  wildcards, the validation order, the fingerprint-keyed certificate store
  and subject field extraction (`src/x509.rs`);
- locale strings, message catalogs, plural rules, `{i}` placeholder
  substitution and the encoding guard (`src/nls.rs`);
- the value codecs of the crate root: revision numbers, `Revision`
  parsing and its native form, depth, native EOL, node kind, checksum kind
  and path-change kind (`src/lib.rs`);
- authz access, load-UUID and revision-access conversions, the
  dump/load/verify option builders, the no-authz shortcut of
  `check_revision_access` and the callback batons of `Report`
  (`src/repos.rs`);
- conflict kind, action, reason and choice codes, the default result and
  the fixed-choice resolver (`src/conflict.rs`);
- the command-line helpers: terminal width, the `CmdlineContext` setters
  and progress visibility, `init`, `format_duration` and the integer branch
  of `format_bytes` (`src/cmdline.rs`);
- the formatting loop of `Stream::printf` (`src/io.rs`);
- working-copy status and schedule codes, the `check_wc` result and the
  callback batons of `get_update_editor4` and `UpdateEditor`
  (`src/wc.rs`).

There is one Dafny module per source file. Two modules are shared:
`Common` holds `Option`, `Result`, `Ordering` and the integer bounds, and
`Text` holds the Rust string operations the core uses (trim, split, find,
replace, decimal formatting and parsing).

Modelling conventions:

- Strings are sequences of characters, and positions are character
  indices.
- A native call is modelled by its outcome, which is passed in as a
  parameter (`Result<int>`, or a `nativeOk` flag).
- The clock is a parameter `now`, in seconds since the epoch.
- Native enum values are taken from Subversion's public headers.
- A conversion that panics on an unknown native value returns `None`.
- A callback baton is a natural number, with 0 as the null address.
- Calling a dropper is recorded as the `(baton, dropper)` entry it is
  called with. The handle-building functions return an `Outcome`: the
  entries handed to the new handle, and the entries freed on the way.

## Model

| member | source | states |
|---|---|---|
| StreamBackend.EmptyState | src/io/backend.rs:119-133 | a new backend (also `with_capacity`) satisfies `read_pos <= write_pos == buffer.len()` and has nothing to read |
| StreamBackend.FromVecState | src/io/backend.rs:135-142 | `from_vec(v)` starts with read position 0 and exactly `v` unread |
| StreamBackend.ReadStep | src/io/backend.rs:146-156 | a read copies `min(len, write_pos - read_pos)` bytes; those bytes followed by what is left unread are the bytes that were unread; buffer and write position unchanged |
| StreamBackend.WriteStep | src/io/backend.rs:158-168 | a write appends the data to the buffer, keeps the read position and the invariant |
| StreamBackend.ResetStep | src/io/backend.rs:170-173 | after `reset` the whole buffer is unread |
| StreamBackend.SeekStep | src/io/backend.rs:189-197 | seek succeeds exactly when the mark is at or before the write position, and then sets the read position to it |
| StreamBackend.FromVecReadsBack | src/io/backend.rs:135-156 | reading `|v|` bytes from `from_vec(v)` returns `v` and leaves nothing unread |
| StreamBackend.ReadsConcatenate | src/io/backend.rs:146-156 | a read of `a` bytes then `b` bytes returns the same bytes, and leaves the same state, as one read of `a + b` bytes |
| StreamBackend.WriteAppends | src/io/backend.rs:158-168 | a write appends the data to the unread bytes and leaves earlier bytes unchanged |
| StreamBackend.WriteAll | src/io/backend.rs:158-168 | any sequence of writes keeps the invariant |
| StreamBackend.WriteAllBuffer | src/io/backend.rs:158-168 | after a sequence of writes the buffer is the old buffer followed by the concatenated data; the read position is kept |
| StreamBackend.WriteResetReadRoundTrip | src/io/backend.rs:158-173 | writes into a new backend, then `reset`, then a read of everything return the concatenation of the writes |
| StreamBackend.MarkSeekRestores | src/io/backend.rs:183-193 | seeking to a mark taken before a read restores the state from before the read |
| StreamBackend.SeekPastEndFails | src/io/backend.rs:189-197 | seeking past the write position fails |
| StreamBackend.BufferBackend.New | src/io/backend.rs:119-125 | the new backend is valid and empty |
| StreamBackend.BufferBackend.WithCapacity | src/io/backend.rs:127-133 | the capacity does not change the state: valid and empty |
| StreamBackend.BufferBackend.FromVec | src/io/backend.rs:135-142 | the state is `FromVecState(v)` |
| StreamBackend.BufferBackend.Read | src/io/backend.rs:146-156 | returns `min(len, write_pos - read_pos)`, copies those bytes to the front of `buf`, leaves the rest of `buf` alone and advances the read position by that count |
| StreamBackend.BufferBackend.Write | src/io/backend.rs:158-168 | the state becomes `WriteStep(old, data)` and the whole length is returned |
| StreamBackend.BufferBackend.Reset | src/io/backend.rs:170-173 | the read position goes back to 0 |
| StreamBackend.BufferBackend.SupportsReset | src/io/backend.rs:175-177 | true |
| StreamBackend.BufferBackend.SupportsMark | src/io/backend.rs:179-181 | true |
| StreamBackend.BufferBackend.Mark | src/io/backend.rs:183-188 | the mark is the current read position |
| StreamBackend.BufferBackend.Seek | src/io/backend.rs:189-197 | in bounds it moves the read position to the mark; out of bounds it fails with "Seek position out of bounds" and the state is unchanged |
| StreamBackend.BufferBackend.Skip | src/io/backend.rs:38-53 | the default `skip` loop skips `min(count, unread)` bytes and ends in the state of one read of `count` bytes |
| StreamBackend.BufferBackend.Close | src/io/backend.rs:28-30 | the inherited `close` succeeds |
| StreamBackend.BufferBackend.DataAvailable | src/io/backend.rs:33-35 | the inherited `data_available` answers true |
| StreamBackend.DefaultBackend.Read | src/io/backend.rs:16-19 | fails with "Read not supported" |
| StreamBackend.DefaultBackend.Write | src/io/backend.rs:22-25 | fails with "Write not supported" |
| StreamBackend.DefaultBackend.Close | src/io/backend.rs:28-30 | succeeds |
| StreamBackend.DefaultBackend.DataAvailable | src/io/backend.rs:33-35 | answers true |
| StreamBackend.DefaultBackend.Skip | src/io/backend.rs:38-53 | `skip(0)` returns 0 without reading; any other count fails with the read error |
| StreamBackend.DefaultBackend.SupportsMark | src/io/backend.rs:56-58 | false |
| StreamBackend.DefaultBackend.Mark | src/io/backend.rs:61-63 | fails with "Mark not supported" |
| StreamBackend.DefaultBackend.Seek | src/io/backend.rs:66-68 | fails with "Seek not supported" |
| StreamBackend.DefaultBackend.Reset | src/io/backend.rs:71-73 | fails with "Reset not supported" |
| StreamBackend.DefaultBackend.SupportsReset | src/io/backend.rs:76-78 | false |
| Sorts.CompareStrReverse | src/sorts.rs:25-29 | swapping the arguments of the component comparison reverses it |
| Sorts.CompareStrEqual | src/sorts.rs:25-29 | components compare equal only when they are equal |
| Sorts.CompareStrTransitive | src/sorts.rs:25-29 | the component order is transitive |
| Sorts.ComparePartsReverse | src/sorts.rs:24-33 | swapping two component lists reverses the zip scan's result |
| Sorts.ComparePartsEqual | src/sorts.rs:24-33 | component lists compare equal exactly when they are equal |
| Sorts.ComparePartsTransitive | src/sorts.rs:24-33 | the component-list order is transitive |
| Sorts.ComparePartsPrefix | src/sorts.rs:24-33 | a component list sorts before every longer list that extends it |
| Sorts.CompareByReverse | src/sorts.rs:14-34 | for all three comparators, `cmp(b, a)` is the reverse of `cmp(a, b)` |
| Sorts.CompareByEqual | src/sorts.rs:14-34 | for all three comparators, only equal paths compare `Equal`; in particular `cmp(a, a)` is `Equal` |
| Sorts.CompareByTransitive | src/sorts.rs:14-34 | all three comparators are transitive |
| Sorts.CompareByTotal | src/sorts.rs:14-34 | all three comparators are total |
| Sorts.ParentBeforeChild | src/sorts.rs:31-33 | "dir" sorts before "dir/anything" |
| Sorts.FirstDifferingComponentDecides | src/sorts.rs:24-30 | paths are ordered by their first differing component |
| Sorts.CommonPrefixParts | src/sorts.rs:24-30 | a shared leading run of components does not change the comparison |
| Sorts.DirsBeforeFiles | src/sorts.rs:61-70 | every path ending in '/' sorts before every path that does not |
| Sorts.ShallowerFirst | src/sorts.rs:78-86 | fewer '/' sorts first; at equal depth the path comparison decides |
| Sorts.DepthIsComponentCount | src/sorts.rs:78-80 | the number of '/' is one less than the number of components |
| Sorts.SortedFirstLe | src/sorts.rs:37-39 | the first element of a sorted sequence is at most every element |
| Sorts.SortedHeadsEqual | src/sorts.rs:37-39 | two sorted arrangements of the same paths start with the same path |
| Sorts.SortedUnique | src/sorts.rs:37-39 | two sorted arrangements of the same paths are equal, so the sort's result is determined |
| Sorts.SortedDirsFirstPartition | src/sorts.rs:73-75 | after `sort_paths_dirs_first` no file precedes a directory |
| Sorts.SortedByDepthMonotone | src/sorts.rs:89-91 | after `sort_paths_by_depth` depths never decrease |
| Sorts.SortBy | src/sorts.rs:37-39 | `sort_by` leaves the array sorted and a permutation of its old contents |
| Sorts.InsertLast | src/sorts.rs:37-39 | one insertion step extends the sorted prefix by one element and permutes the array |
| Sorts.SortPaths | src/sorts.rs:37-39 | `sort_paths` yields a sorted permutation under `compare_items_as_paths` |
| Sorts.SortPathsDirsFirst | src/sorts.rs:73-75 | `sort_paths_dirs_first` yields a sorted permutation under `compare_paths_dirs_first` |
| Sorts.SortPathsByDepth | src/sorts.rs:89-91 | `sort_paths_by_depth` yields a sorted permutation under `compare_paths_by_depth` |
| Sorts.SortHashByPaths | src/sorts.rs:42-46 | every key appears exactly once, in path order, with its value from the map |
| Sorts.IndexMapInsert | src/sorts.rs:52-54 | an `IndexMap` insert appends a new key; for an existing key the first entry with that key takes the new value in its place and every other entry is unchanged |
| Sorts.SortHashToOrdered | src/sorts.rs:49-56 | the ordered map holds every key exactly once, in path order, with unchanged values |
| Sorts.CollectKeys | src/sorts.rs:43 | collecting the map yields every key exactly once, in any order |
| Sorts.InsertAll | src/sorts.rs:50-55 | inserting entries with distinct keys one by one into an empty `IndexMap` yields exactly those entries in the same order |
| Xml.HeaderToString | src/xml.rs:30-46 | the header starts with the version and encoding declaration and ends with `?>` |
| Xml.DefaultHeaderText | src/xml.rs:20-28 | the default header is exactly `<?xml version="1.0" encoding="UTF-8"?>` |
| Xml.CustomHeaderText | src/xml.rs:38-61 | a standalone flag adds ` standalone="yes"` or ` standalone="no"` before `?>`; no flag adds nothing |
| Xml.EscapeTextConcat | src/xml.rs:64-75 | `escape_text` of a concatenation is the concatenation of the escapes |
| Xml.EscapeAttributeConcat | src/xml.rs:78-93 | `escape_attribute` of a concatenation is the concatenation of the escapes |
| Xml.EscapeConcat | src/xml.rs:64-93 | both escape functions work character by character |
| Xml.EscapeIdentity | src/xml.rs:64-93 | characters that need no escaping are copied unchanged |
| Xml.EscapedCharHasNoMarkup | src/xml.rs:64-93 | no single escaped character contains a raw `<`, `>`, `"` or `'` |
| Xml.EscapedTextCharHasNoMarkup | src/xml.rs:64-75 | the text escape of one character has no raw `<`, `>`, `"` or `'`, and no newline, carriage return or tab it was not given |
| Xml.EscapedTextHasNoMarkup | src/xml.rs:64-75 | the output of `escape_text` has no raw `<`, `>`, `"` or `'` |
| Xml.EscapedAttributeHasNoMarkup | src/xml.rs:78-93 | the output of `escape_attribute` has none of those, and no raw newline, carriage return or tab |
| Xml.UnescapePlain | src/xml.rs:64-93 | decoding copies a character that does not start an entity |
| Xml.UnescapeEntity | src/xml.rs:64-93 | each entity the escapers emit decodes to its character |
| Xml.UnescapeAfterTextChar | src/xml.rs:64-75 | decoding undoes the text escape of one character |
| Xml.UnescapeAfterAttributeChar | src/xml.rs:78-93 | decoding undoes the attribute escape of one character |
| Xml.UnescapeEscapeText | src/xml.rs:64-75 | decoding the output of `escape_text` gives back the text |
| Xml.UnescapeEscapeAttribute | src/xml.rs:78-93 | decoding the output of `escape_attribute` gives back the value |
| Xml.XmlElement.WithAttribute | src/xml.rs:123-126 | the attribute map gains `key := value`; other fields unchanged; names stay distinct |
| Xml.XmlElement.WithContent | src/xml.rs:129-132 | sets the content and nothing else |
| Xml.XmlElement.WithChild | src/xml.rs:135-138 | appends the child after the existing ones and changes nothing else |
| Xml.XmlElement.SelfClosing | src/xml.rs:141-144 | sets the self-closing flag and nothing else |
| Xml.InsertAttribute | src/xml.rs:123-126 | a new name is appended; an existing name keeps its place |
| Xml.InsertAttributeMap | src/xml.rs:123-126 | after an insertion the map view is the old map updated at that name |
| Xml.InsertAttributeNames | src/xml.rs:123-126 | insertion adds exactly the inserted name and keeps names distinct |
| Xml.RenderAttributesSnoc | src/xml.rs:155-157 | the attribute loop's output grows by one rendered attribute per turn |
| Xml.RenderChildrenSnoc | src/xml.rs:172-174 | the children loop's output grows by one serialised child per turn |
| Xml.ToString | src/xml.rs:147-180 | `to_string` produces `Render(e)`: `<name attrs/>` for a self-closing element, otherwise `<name attrs>` + escaped content + children in order + `</name>` |
| Xml.PushAttributes | src/xml.rs:155-157 | the attribute loop appends every attribute as ` name="escaped value"` |
| Xml.PushChildren | src/xml.rs:172-174 | the children loop appends every child's serialisation in order |
| Xml.PushChildStep | src/xml.rs:172-174 | one turn of the children loop keeps the output equal to the start plus the serialised children so far |
| Xml.RenderSelfClosing | src/xml.rs:151-162 | a self-closing element serialises as `<name attrs/>`, ignoring content and children |
| Xml.RenderedAttributeAppears | src/xml.rs:155-157 | each attribute appears in the output as ` name="escaped value"` |
| Xml.ToResult | src/xml.rs:243-311 | a panic of the as-written parser becomes an error result; every other outcome is kept |
| Xml.ParseAsWrittenPanicsOnOverlap | src/xml.rs:276-285 | `parse_simple_element("<a </a>")` slices `[7..3]` and panics; the corrected parser returns an error |
| Xml.ParseAsWrittenPanicsOnBareClose | src/xml.rs:252-255 | `parse_simple_element(">")` slices `[1..0]` and panics; the corrected parser returns an error |
| Xml.ParseAsWrittenPanicsOnBareSelfClose | src/xml.rs:291-292 | `parse_simple_element("/>")` slices `[1..0]` and panics; the corrected parser returns an error |
| Xml.ParseNoClosing | src/xml.rs:252-254 | input without `>` is rejected with "Invalid XML: no closing >" |
| Xml.ApplyParts | src/xml.rs:265-274 | the attribute loop adds every `name=value` part, with quotes trimmed, in order |
| Xml.ParseSelfClosingTag | src/xml.rs:291-311 | `parse_self_closing_tag` returns the name, the attributes and the self-closing flag, or the error |
| Xml.ParseSimpleElement | src/xml.rs:243-289 | `parse_simple_element` returns `Parse(xml)`: the as-written result wherever it does not panic |
| Xml.NameSetSnoc | src/xml.rs:123-126 | appending an attribute adds its name to the name set |
| Xml.DistinctNamesSnoc | src/xml.rs:123-126 | names stay distinct exactly when the new name is fresh |
| Xml.PlainValueUnescaped | src/xml.rs:78-93 | a value free of markup and whitespace is rendered unchanged |
| Xml.PartHasNoWhitespace | src/xml.rs:155-157 | a rendered plain attribute is one whitespace-free part |
| Xml.SplitRenderedTag | src/xml.rs:151-157 | a serialised opening tag splits into the name followed by one part per attribute |
| Xml.NoCloseInAttributes | src/xml.rs:155-157 | rendered plain attributes contain no `>` |
| Xml.ApplyPlainPart | src/xml.rs:266-274 | a serialised attribute part is read back as that attribute |
| Xml.AddPlainAttributes | src/xml.rs:265-274 | the attribute loop over serialised parts rebuilds the attribute list |
| Xml.OpenTagEnds | src/xml.rs:244-248 | a serialised open element begins with `<` and ends with `>`, so trimming leaves it alone, and it does not end in `/>` |
| Xml.OpenTagFirstClose | src/xml.rs:252-255 | the first `>` of a serialised open element closes its opening tag |
| Xml.OpenTagClosing | src/xml.rs:277-281 | the last `</name>` of a serialised open element follows its text |
| Xml.ContentAt | src/xml.rs:276-286 | when the last `</name>` starts right after the text and the text is already trimmed, the text becomes the content; empty text leaves none |
| Xml.OpenTagStep | src/xml.rs:255-274 | a serialised opening tag reads back as the element's name and attributes |
| Xml.OpenTextShape | src/xml.rs:244-281 | in `<tag>text</name>` there is nothing to trim, the first `>` ends the tag and the last `</name>` follows the text |
| Xml.ParseOpenParts | src/xml.rs:243-289 | a string laid out that way parses to the element with the tag's name and attributes and the text as content |
| Xml.ParseOpenText | src/xml.rs:243-289 | `<tag>text</name>` parses to that element whenever the tag splits into the name and plain, distinct attribute parts and the text is trimmed |
| Xml.AddPlainAttributeStep | src/xml.rs:265-274 | one more serialised attribute part extends the rebuilt attribute list by that attribute |
| Xml.RenderOpenShape | src/xml.rs:147-180 | the serialisation of an open element without children |
| Xml.ParseRenderOpen | src/xml.rs:243-289 | parsing a serialised open element gives it back |
| Xml.ParseRenderSelfClosing | src/xml.rs:291-311 | parsing a serialised self-closing element gives it back |
| Xml.ParseRender | src/xml.rs:243-311 | parsing the serialisation of an element with a plain name, plain distinct attributes, trimmed markup-free content and no children gives the element back |
| Xml.ParseRenderAnyOrder | src/xml.rs:147-311 | whatever order `to_string` walks the attribute `HashMap` in, parsing the output gives back the same attribute table, name, content and flag |
| Xml.AttributeMapEntries | src/xml.rs:123-126 | with distinct names the map view holds exactly the entries of the attribute list |
| Xml.ContentExampleRenders | src/xml.rs:389-395 | `<test>Hello World</test>` is the serialisation of element `test` with content `Hello World` |
| Xml.RenderPlainContent | src/xml.rs:147-180 | an element with markup-free content and no attributes or children serialises as `<name>content</name>` |
| Xml.ParseContentExample | src/xml.rs:389-395 | `<test>Hello World</test>` parses to element `test` with that content |
| Xml.ParseSelfClosingExample | src/xml.rs:398-405 | `<br/>` parses to a self-closing `br` without content |
| X509.CertificateInfo.TimeUntilExpiry | src/x509.rs:101-105 | the seconds until `valid_until`, or "Certificate is already expired" exactly when expired |
| X509.CertificateInfo.Age | src/x509.rs:108-112 | the seconds since `valid_from`, or "Certificate is not yet valid" exactly when not yet valid |
| X509.ValidIffNeitherExpiredNorEarly | src/x509.rs:85-98 | valid now exactly when neither expired nor not yet valid |
| X509.ValidityOverTime | src/x509.rs:90-98 | `is_expired` stays true as time passes, `is_not_yet_valid` stays false, and a non-empty window is never both |
| X509.UsagesIgnoreOrder | src/x509.rs:147-154 | `has_key_usage` and `has_extended_key_usage` depend only on which usages are listed, not on their order or repetition |
| X509.WildcardAcceptsOneLabel | src/x509.rs:127-140 | `*.d` accepts `p.d` for every non-empty dot-free `p` |
| X509.WildcardMatchesOneLabel | src/x509.rs:127-140 | every hostname a wildcard accepts is one such label, a dot and the domain |
| X509.WildcardOneLabelIff | src/x509.rs:127-140 | under `*.d`, `x.d` is accepted exactly when `x` is non-empty and dot-free |
| X509.WildcardSingleLevel | src/x509.rs:517-523 | `sub.example.com` matches `*.example.com`, `sub.sub.example.com` does not |
| X509.WildcardAcceptsSub | src/x509.rs:520 | `*.example.com` accepts `sub.example.com` |
| X509.WildcardRejectsSubSub | src/x509.rs:522 | `*.example.com` refuses `sub.sub.example.com` |
| X509.CommonNameIsSubstring | src/x509.rs:117-119 | the common-name test is a substring test: `CN=hostname` followed by more text still matches |
| X509.IsValidForHostname | src/x509.rs:115-145 | true exactly when the subject contains `CN=hostname` or some SAN equals or wildcard-matches the hostname |
| X509.ValidationContext.New | src/x509.rs:199-210 | hostname checking on, no hostname, no CAs or CRLs, depth 10, no self-signed |
| X509.ValidationContext.AddTrustedCa | src/x509.rs:212-214 | appends the CA and changes nothing else |
| X509.ValidationContext.SetHostname | src/x509.rs:217-219 | sets the hostname and changes nothing else |
| X509.ValidationContext.Validate | src/x509.rs:222-247 | Expired first, then NotYetValid, then InvalidHostname only when hostname checking is on and a hostname is set, otherwise Valid; each result stated as an iff |
| X509.ParseCertificatePem | src/x509.rs:260-292 | errors on empty input and on a missing BEGIN CERTIFICATE header; otherwise the placeholder certificate |
| X509.ParseCertificateDer | src/x509.rs:295-317 | errors exactly on empty input |
| X509.CalculateFingerprint | src/x509.rs:320-333 | errors with "Empty certificate data" exactly on empty input; otherwise returns the fixed `placeholder:fingerprint:…` string |
| X509.FingerprintIgnoresData | src/x509.rs:320-332 | every non-empty input gets the same fixed placeholder fingerprint |
| X509.CertificateStore.New | src/x509.rs:344-348 | the store starts empty |
| X509.CertificateStore.Count | src/x509.rs:404-406 | the number of stored fingerprints |
| X509.CertificateStore.GetCertificate | src/x509.rs:356-358 | the certificate stored under the fingerprint, if any |
| X509.CertificateStore.AddCertificate | src/x509.rs:351-353 | stores the certificate under its fingerprint, replacing an equal fingerprint; `get_certificate` then returns it and the count grows only for a new fingerprint |
| X509.CertificateStore.RemoveCertificate | src/x509.rs:361-363 | returns what was stored, removes it, and decrements the count when something was removed |
| X509.CertificateStore.Clear | src/x509.rs:409-411 | the store is empty and the count is 0 |
| X509.CertificateStore.Filter | src/x509.rs:371-401 | the filter/collect of the `find_*` methods: each selected certificate once, nothing else |
| X509.CertificateStore.GetAllCertificates | src/x509.rs:366-368 | every stored certificate, one per fingerprint |
| X509.CertificateStore.FindBySubject | src/x509.rs:371-376 | exactly the stored certificates whose subject contains the text, one per fingerprint |
| X509.CertificateStore.FindByIssuer | src/x509.rs:379-384 | exactly the stored certificates whose issuer contains the text, one per fingerprint |
| X509.CertificateStore.FindExpired | src/x509.rs:387-392 | exactly the expired stored certificates, one per fingerprint |
| X509.CertificateStore.FindExpiringWithin | src/x509.rs:395-401 | exactly the stored certificates not yet expired that expire within the duration |
| X509.CertificateStore.ValuesSelected | src/x509.rs:371-401 | the filter's result, read as a statement about stored values |
| X509.FieldIndex | src/x509.rs:424-431 | the first part whose key matches the field ignoring ASCII case, or none |
| X509.ExtractSubjectField | src/x509.rs:421-433 | `extract_subject_field` returns the trimmed value of the first matching comma-separated part, else None |
| X509.FindField | src/x509.rs:424-431 | the scan stops at the first matching part |
| X509.FirstIndex | src/x509.rs:422-432 | the first position whose element passes the test, with every earlier one failing it; none exactly when no element passes |
| X509.FindFirst | src/x509.rs:422-432 | the loop over the parts in order returns the position `FirstIndex` names |
| X509.SubjectFieldFirst | src/x509.rs:421-433 | a leading matching `key=value` part yields its value |
| X509.SubjectFieldSkip | src/x509.rs:421-433 | a leading part that does not match is skipped |
| X509.PartOf | src/x509.rs:425-428 | a trimmed `key=value` part splits into its key and value |
| X509.SubjectFieldLast | src/x509.rs:421-433 | a last part that does not match leaves nothing to find |
| X509.SubjectFieldOfThree | src/x509.rs:421-433 | of three plain parts, the first matching one decides |
| X509.SubjectFieldExample | src/x509.rs:628-644 | in `CN=example.com,O=Example Corp,C=US` every field name finds the value of the first key equal to it ignoring ASCII case (`CN`, `O`, `C`), and any other name, such as `L`, finds nothing |
| X509.TestCertificateValid | src/x509.rs:479-523 | the test certificate is valid now, valid for its name and a one-label wildcard name, validates as Valid, and has the expected CN, O and C |
| X509.TestCertificateUsages | src/x509.rs:508-538 | the test certificate is neither expired nor early, has digital signature and key encipherment but not certificate signing, and server but not client authentication |
| Nls.FromLocaleStringDefaults | src/nls.rs:30-45 | no `.` gives encoding UTF-8, no `_` gives no country, and the original string is kept |
| Nls.LocaleRoundTrip | src/nls.rs:30-54 | parsing `to_locale_string` gives back language, country and encoding when the parts contain no `.` or `_` |
| Nls.DefaultLocaleExample | src/nls.rs:62-66 | `en_US.UTF-8` reads as `en`, `US`, `UTF-8` |
| Nls.Utf8Example | src/nls.rs:57-59 | `UTF-8` and `utf-8` encodings are UTF-8 |
| Nls.BareLanguageExample | src/nls.rs:346-351 | `fr` reads as `fr`, no country, `UTF-8` |
| Nls.MessageCatalog.New | src/nls.rs:79-84 | an empty catalog for the language |
| Nls.MessageCatalog.Translate | src/nls.rs:93-98 | the stored translation when there is one, otherwise the message id |
| Nls.MessageCatalog.AddTranslation | src/nls.rs:87-90 | stores or replaces one translation; every other id translates as before |
| Nls.CreateDefaultErrorCatalog | src/nls.rs:243-257 | an English catalog with exactly the eight default messages |
| Nls.PluralIndex | src/nls.rs:274-305 | English is 0 iff the count is 1, else 1; Romance is 0 iff the count is at most 1, else 1; Slavic is always 0, 1 or 2, with the singular and paucal cases stated as iffs |
| Nls.SlavicTeens | src/nls.rs:288-300 | counts ending in 10 to 19 take the Slavic plural form |
| Nls.Placeholder | src/nls.rs:195 | the placeholder text starts with `{` |
| Nls.SubstituteArgs | src/nls.rs:192-197 | the placeholder loop replaces `{0}`, `{1}`, ... by the arguments in turn |
| Nls.SubstituteNoBrace | src/nls.rs:192-197 | text without `{` is left as it is |
| Nls.PlaceholderNotPrefix | src/nls.rs:195-196 | one placeholder never starts where another one does |
| Nls.PlaceholderSkip | src/nls.rs:195-196 | replacing one placeholder passes over another |
| Nls.SlotStep | src/nls.rs:195-196 | replacing `{k}` fills slot `k` and keeps the others |
| Nls.FillStep | src/nls.rs:195-196 | replacing `{k}` in a template fills exactly slot `k` |
| Nls.SubstituteFrom | src/nls.rs:192-197 | the loop from placeholder `k` on fills the remaining slots |
| Nls.SubstituteTemplate | src/nls.rs:189-199 | each `{i}` is replaced by `args[i]` and all other text is unchanged, for text and arguments free of `{` |
| Nls.SubstituteExample | src/nls.rs:386-393 | `Hello {0}, you have {1} messages` with `Alice` and `5` gives `Hello Alice, you have 5 messages` |
| Nls.ConvertEncoding | src/nls.rs:203-225 | the text comes back unchanged, or the "not fully implemented" error exactly when the names differ, the text is not ASCII and the target is not UTF-8 |
| Nls.ConvertEncodingSameName | src/nls.rs:208-211 | encoding names equal ignoring case return the text unchanged |
| SvnTypes.RevnumFromRaw | src/lib.rs:118-124 | None exactly for a negative raw value, otherwise the value unchanged |
| SvnTypes.RevnumFromU64 | src/lib.rs:93-97 | the `as` cast: equal to the value up to `i64::MAX`, congruent modulo 2^64 above it |
| SvnTypes.AsU64 | src/lib.rs:111-129 | the two's-complement reading, congruent modulo 2^64 |
| SvnTypes.AsU32 | src/lib.rs:105-109 | the low 32 bits |
| SvnTypes.RevnumU64RoundTrip | src/lib.rs:93-129 | every `u64` survives the trip through `Revnum`, and so does every non-negative revision |
| SvnTypes.RevnumU32RoundTrip | src/lib.rs:87-109 | every `u32` survives the trip through `Revnum` |
| SvnTypes.ToOptRevision | src/lib.rs:405-463 | the native kind is in range, and keywords carry value 0 |
| SvnTypes.FromOptRevision | src/lib.rs:465-485 | an unknown native kind reads as Unspecified |
| SvnTypes.OptRevisionRoundTrip | src/lib.rs:405-485 | every revision survives the trip through `svn_opt_revision_t`, and so does every well-formed native value |
| SvnTypes.ParseRevision | src/lib.rs:347-376 | the corrected parser agrees with the original wherever it succeeds, and never yields a negative revision number |
| SvnTypes.PrefixedNotKeyword | src/lib.rs:351-362 | no keyword starts with `number:` or `date:` |
| SvnTypes.ParseNumberText | src/lib.rs:363-367 | `number:N` parses to revision `N` for every valid `N` |
| SvnTypes.ParseDateText | src/lib.rs:368-371 | `date:N` parses to date `N` for every `i64` `N` |
| SvnTypes.ParseRevisionText | src/lib.rs:347-376 | every keyword, valid number and date parses back from its text form |
| SvnTypes.ParseRevisionOutcomes | src/lib.rs:350-375 | a keyword gives its revision; anything that is not a keyword, `number:N` or `date:N` fails with "Invalid revision: " and the input; a malformed integer fails, and so does a negative number; success holds exactly for the three accepted forms |
| SvnTypes.ParseRevisionNegativeNumber | src/lib.rs:363-367 | `number:-1` parses to revision -1 as written, a value `Revnum::from_raw` refuses; the corrected parser rejects it |
| SvnTypes.DepthFromRaw | src/lib.rs:511-524 | None (the panic) exactly outside -2..3 |
| SvnTypes.DepthRawRoundTrip | src/lib.rs:498-524 | the two depth conversions are inverse |
| SvnTypes.ParseDepth | src/lib.rs:526-539 | a failure carries "Invalid depth: " and the input |
| SvnTypes.ParseDepthExactly | src/lib.rs:526-539 | `from_str` accepts exactly the six depth names, each for its own depth |
| SvnTypes.EolFromMarker | src/lib.rs:742-757 | a failure is the unknown-EOL error |
| SvnTypes.EolMarkerRoundTrip | src/lib.rs:742-769 | a marker is accepted exactly when it is the marker of the style it yields, so try_from and into are inverse |
| SvnTypes.NodeKindFromRaw | src/lib.rs:857-868 | None (the panic) exactly outside 0..4 |
| SvnTypes.NodeKindRoundTrip | src/lib.rs:857-880 | the two node-kind conversions are inverse |
| SvnTypes.ChecksumKindFromRaw | src/lib.rs:1022-1032 | None (the panic) exactly outside 0..3 |
| SvnTypes.ChecksumKindRoundTrip | src/lib.rs:1022-1043 | the two checksum-kind conversions are inverse |
| SvnTypes.KnownSizeUnique | src/lib.rs:1389-1398 | each kind has exactly one known size (MD5 16, SHA1 20, FNV-1a 4, FNV-1a x4 16) |
| SvnTypes.FsPathChangeKindFromRaw | src/lib.rs:837-855 | codes 1, 2, 3 are add, delete, replace; every other code is modify |
| Repos.AuthzAccessFromRaw | src/repos.rs:297-312 | both bits give ReadWrite, write alone Write, read alone Read, neither None |
| Repos.AuthzAccessRoundTrip | src/repos.rs:297-327 | every access level survives the trip through its native bits, and the recursive bit is ignored |
| Repos.LoadUuidFromRaw | src/repos.rs:59-68 | None exactly outside the three native values |
| Repos.LoadUuidRoundTrip | src/repos.rs:59-78 | the two UUID conversions are inverse |
| Repos.RevisionAccessLevelFromRaw | src/repos.rs:340-353 | none gives None, partial gives Partial, every other value gives Full |
| Repos.CheckRevisionAccess | src/repos.rs:2689-2739 | without an authz the answer is full access whatever the native call would say; with one, a native level becomes its `RevisionAccessLevel` (none, partial, otherwise full) and a native error is passed on unchanged |
| Repos.NoAuthzIgnoresRepository | src/repos.rs:2697-2700 | without an authz the native answer makes no difference |
| Repos.DumpBuildersSetOneField | src/repos.rs:103-144 | each dump builder sets its own field and changes nothing else |
| Repos.LoadBuildersSetOneField | src/repos.rs:173-232 | each load builder sets its own field and changes nothing else |
| Repos.VerifyBuildersSetOneField | src/repos.rs:253-282 | each verify builder sets its own field and changes nothing else |
| Repos.Report.constructor | src/repos.rs:2400-2404 | the report owns the registered batons |
| Repos.Report.Drop | src/repos.rs:2416-2431 | calls the dropper of every non-null baton once, in order, then empties the list |
| Repos.BeginReport | src/repos.rs:2296-2405 | the corrected `begin_report` hands the registered baton to the report on success and frees it on failure |
| Repos.BeginReportLeaksOnFailure | src/repos.rs:2315-2389 | as written, a boxed authz callback is neither freed nor owned when the native call fails |
| Repos.BeginReportReleasesOnce | src/repos.rs:2296-2431 | corrected, the boxed callback is released exactly once, whether the native call succeeds or fails |
| Conflict.KindFromRawExactly | src/conflict.rs:16-25 | codes 0, 1, 2 decode to Text, Property, Tree; every other code to Text |
| Conflict.ActionFromRawExactly | src/conflict.rs:40-51 | codes 0..3 decode to their actions; every other code to Edit |
| Conflict.ReasonFromRawExactly | src/conflict.rs:75-90 | codes 0..8 decode to their reasons; every other code to Edited |
| Conflict.ChoiceToRaw | src/conflict.rs:243-254 | values lie in -1..6, and -1 is Undefined exactly |
| Conflict.ChoiceRawRoundTrip | src/conflict.rs:243-254 | `to_raw` is injective and onto -1..6 |
| Conflict.TextOptionIdInjective | src/conflict.rs:257-268 | distinct choices give distinct text options |
| Conflict.ToTreeOptionId | src/conflict.rs:271-280 | Base, TheirsFull and MineFull have their own tree options; every other choice postpones |
| Conflict.DefaultConflictResult | src/conflict.rs:294-302 | Postpone, no merged file, no save |
| Conflict.SimpleConflictResolver.Postponing | src/conflict.rs:326-328 | a resolver that postpones |
| Conflict.SimpleConflictResolver.Theirs | src/conflict.rs:331-333 | a resolver that chooses theirs-full |
| Conflict.SimpleConflictResolver.Mine | src/conflict.rs:336-338 | a resolver that chooses mine-full |
| Conflict.SimpleConflictResolver.Resolve | src/conflict.rs:341-349 | never fails, returns the configured choice with no merged file and no save |
| Conflict.ResolveIgnoresConflict | src/conflict.rs:457-478 | the answer does not depend on the conflict; a postponing resolver answers the default result |
| Cmdline.TerminalInfo.EffectiveWidth | src/cmdline.rs:114-121 | `usize::MAX` when redirected, otherwise the width or 80 |
| Cmdline.CmdlineContext.New | src/cmdline.rs:138-145 | no callback, not quiet, verbosity 0, so `should_show_progress` is false |
| Cmdline.CmdlineContext.SetProgressCallback | src/cmdline.rs:148-150 | sets the callback and nothing else; progress then shows exactly when not quiet and not redirected |
| Cmdline.CmdlineContext.ClearProgressCallback | src/cmdline.rs:153-155 | clears the callback and nothing else; progress is then hidden |
| Cmdline.CmdlineContext.SetQuiet | src/cmdline.rs:165-167 | sets `quiet` and nothing else; quiet hides progress |
| Cmdline.CmdlineContext.SetVerbose | src/cmdline.rs:170-172 | sets the verbosity and nothing else; progress visibility is unchanged |
| Cmdline.Init | src/cmdline.rs:190-202 | fails exactly for an empty program name, with "Program name cannot be empty" |
| Cmdline.Fields | src/cmdline.rs:352-362 | hours, minutes and seconds add up to the duration, with minutes and seconds below 60 |
| Cmdline.FormatDuration | src/cmdline.rs:352-362 | "Ns" below 60, "MmSs" below 3600, "HhMmSs" otherwise |
| Cmdline.FieldsDetermine | src/cmdline.rs:352-362 | the fields determine the duration |
| Cmdline.FormatDurationShape | src/cmdline.rs:352-362 | every output is a number, a unit letter and a rest fixed by the fields |
| Cmdline.FormatDurationInjective | src/cmdline.rs:352-362 | different durations never format alike |
| Cmdline.FormatDurationExamples | src/cmdline.rs:514-521 | 30 s, 90 s and 3661 s format as "30s", "1m30s" and "1h1m1s" |
| Cmdline.FormatBytes | src/cmdline.rs:329-349 | below 1024 the text is "n B"; the float branch is not modelled |
| StreamPrintf.FirstLetter | src/io.rs:820-829 | the first alphabetic character, and no alphabetic character before it |
| StreamPrintf.FormattedPlainAt | src/io.rs:831-833 | an ordinary character is copied |
| StreamPrintf.FormattedPercentAt | src/io.rs:816-819 | `%%` writes `%` |
| StreamPrintf.FormattedSpecifierAt | src/io.rs:820-829 | a specifier writes the next argument and resumes after its letter |
| StreamPrintf.SkipSpecifier | src/io.rs:822-828 | the specifier loop stops at the first letter, or at the end |
| StreamPrintf.FormatStep | src/io.rs:815-834 | one turn of the loop: the text it pushes plus the rest of the output is the output from here |
| StreamPrintf.Printf | src/io.rs:810-836 | the loop produces `Formatted(format, args)` |
| StreamPrintf.PrintfFromUtf8 | src/io.rs:840-847 | the same output as `printf` |
| StreamPrintf.FormattedPlain | src/io.rs:831-833 | text without `%` is copied unchanged and uses no argument |
| StreamPrintf.FormattedPrefix | src/io.rs:831-833 | ordinary characters before a format are copied in front of its output |
| StreamPrintf.FormattedPercent | src/io.rs:816-819 | `%%` writes one `%` and uses no argument |
| StreamPrintf.FormattedSpecifier | src/io.rs:820-829 | a specifier writes the next argument's text, or nothing when none is left, and moves to the following argument |
| StreamPrintf.FormattedUnterminated | src/io.rs:822-829 | a `%` with no later letter swallows the rest of the format |
| StreamPrintf.FormattedExtraArgs | src/io.rs:812-826 | arguments are used in order, each at most once: arguments beyond the specifiers are never used |
| StreamPrintf.FormattedExample | src/io.rs:1886-1891 | `Number: %d` with 42 gives `Number: 42` |
| Wc.StatusKindFromRawExactly | src/wc.rs:214-234 | the 14 known codes decode to their statuses; every other code to None |
| Wc.ScheduleFromRawExactly | src/wc.rs:324-334 | the four known codes decode to their schedules; every other code to Normal |
| Wc.CheckWc | src/wc.rs:1065-1084 | format 0 gives None, another format gives Some(format), a native error is passed on |
| Wc.PushIfNonNull | src/wc.rs:915-930 | one push appends the entry only when its baton is non-null |
| Wc.CandidatesOneByOne | src/wc.rs:915-930 | filtering the five candidates one by one filters them all |
| Wc.CollectBatons | src/wc.rs:915-930 | exactly the non-null batons are registered, in the order fetch-dirents, conflict, external, cancel, notify |
| Wc.TargetRevision | src/wc.rs:936-942 | a negative native target revision becomes revision 0; otherwise it is kept |
| Wc.UpdateEditor.constructor | src/wc.rs:932-938 | the editor owns the registered batons |
| Wc.UpdateEditor.Drop | src/wc.rs:959-971 | calls the dropper of every non-null baton once, in order, then empties the list |
| Wc.GetUpdateEditor | src/wc.rs:833-943 | the corrected `get_update_editor4` hands the registered batons to the editor on success and frees them on failure |
| Wc.GetUpdateEditorLeaksOnFailure | src/wc.rs:833-911 | as written, a boxed conflict callback is neither freed nor owned when the native call fails |
| Wc.GetUpdateEditorReleasesOnce | src/wc.rs:833-971 | corrected, every boxed callback is released exactly once, whether the native call succeeds or fails |
| Batons.NonNullEntriesMembers | src/wc.rs:915-930 | the filter keeps exactly the entries with a non-null baton |
| Batons.NonNullEntriesConcat | src/wc.rs:915-930 | filtering distributes over concatenation |
| Batons.NonNullEntriesIdempotent | src/wc.rs:915-930 | filtering twice changes nothing: a handle releases every entry registered with it |
| Batons.NonNullReleasedOnce | src/wc.rs:962-968 | releasing the non-null entries of distinct batons releases each exactly once |

## Left out

- Every native `svn_*` and `apr_*` call is left out. Its outcome is a parameter (`Result<int>` or a success flag), and the arguments marshalled for it are not modelled.
- Pool and arena lifetimes, ownership of raw allocations, the `Box::into_raw` trampolines and the freeing of stream batons are left out. Only the abstract list of (baton, dropper) entries is modelled.
- The final `puts` of `Stream::printf` is a native call and is left out. So is the panic on an interior NUL byte when the text becomes a C string.
- The process-wide locale and catalog state (`init`, `set_locale`, `get_locale`, `register_message_catalog`, `translate_message`, `get_available_languages`, `is_language_supported`) is left out. Of `translate_message_with_args`, only the placeholder loop over an already-translated message is modelled.
- `translate_plural` is left out; it is a lookup in that global state.
- `detect_system_locale` is left out because it reads the environment.
- `TerminalInfo::detect`, `stdin_is_available`, `is_interactive` and `prompt_user` are left out; they do terminal and environment I/O.
- `CmdlineContext::new` takes the detected terminal as a parameter.
- `create_auth_baton` is left out; it is a native call.
- `CmdlineContext::report_progress` and `ProgressNotifier` are left out. The first invokes an opaque closure; the second computes floating-point percentages and rates.
- Cmdline.FormatBytes: only the integer branch is modelled (`bytes < 1024`). The scaled `{:.1}` branch is floating point, and there the model returns `None`.
- `format_certificate_info` is left out: it is text assembly for display only.
- `XmlElement::to_pretty_string` is left out: it is indentation for display only.
- The certificate parsers return placeholder certificates. Only their input guards and the fields they fix are modelled.
- `CommonName`, `Organization` and `Country` are modelled as the three calls to `extract_subject_field` they wrap. They are used only in `X509.TestCertificateValid`.
- The callback-valued fields of the dump, load and verify options (notify, cancel) are left out. The builders are plain record updates.
- `ConflictDescription` keeps only the fields a resolver is shown; the side-file paths and versions are left out. `ConflictDescription::from_raw` reads native memory and is left out.
- `InteractiveConflictResolver` (prompts on stdin) and `conflict_resolver_callback` (the native trampoline) are left out.
- `StatusKind` and its decoding are modelled as in `src/wc.rs`. The conversions of the crate root's own status type are left out.
- `ReadOnlyBackend`, `WriteOnlyBackend`, the blanket `Read + Write` adapter and `StreamBuilder` are left out. They delegate to `std::io` or pass the backend through.
- `HashMap` iteration order is unspecified. XML attributes are a list of distinct names in insertion order. `sort_hash_by_paths` starts from a map.
- Xml.ToString: the source walks the attribute `HashMap` in an unspecified order; the model renders attributes in list order, which is one of the outputs the source may produce. `Xml.ParseRenderAnyOrder` states the round trip for every other listing of the same table, at the level of the attribute map.
- `Sorts.SortBy`: Rust's `sort_by` is a merge sort and the model is an insertion sort. Both are stable, and `Sorts.SortedUnique` shows that the sorted result is the same either way.
- X509.CertificateInfo.TimeUntilExpiry: the clock reads of `is_expired`, `is_not_yet_valid`, `time_until_expiry`, `age` and `validate` are one parameter `now`, in whole seconds. Two consecutive reads are therefore taken to agree.
- X509.ValidationContext.Validate: the same single `now` is used for the expiry and start checks, which read the clock twice in the source.
- StreamPrintf.FirstLetter: `char::is_alphabetic` is modelled for ASCII letters only. Non-ASCII letters also end a specifier in the source.
- StreamPrintf.Printf: arguments are given as their display text, because `Display` formatting is not modelled.
- Nls.ConvertEncoding: `to_uppercase` is modelled as ASCII upper-casing. Encoding names that differ only in non-ASCII case are treated as different.
- Nls.Utf8Example: `is_utf8` upper-cases with ASCII rules, for the same reason.
- Nls.PluralIndex: the count is unbounded, not a `u32`. A custom rule is modelled as a total function.
- SvnTypes.ParseRevisionAsWritten: the text of an integer parse error is not modelled; every malformed integer fails with one fixed message.
- SvnTypes.ParseRevision: integer syntax follows `i64::from_str`, with an optional sign, ASCII digits and range checks. The exact error texts of the standard library are not reproduced.
- The native enum values (`svn_depth_t`, `svn_node_kind_t`, `svn_checksum_kind_t`, `svn_wc_status_kind`, `svn_wc_schedule_t`, the conflict codes, `svn_repos_authz_access_t` and the rest) are taken from Subversion's public C headers. Those headers are not part of this model.
- Rust byte-index slicing panics off a character boundary. The XML parser models this only where it matters: the first character of the input.

## Findings

| source | as written | input that shows it | evidently intended | confidence | as-written member | corrected member |
|---|---|---|---|---|---|---|
| src/xml.rs:243-311 | `parse_simple_element` slices the input with bounds it never checks | `<a </a>` (slice `[7..3]`), `>` and `/>` (slice `[1..0]`) all panic | malformed input returns an error, as a missing `>` already does | not executed | Xml.ParseAsWrittenPanicsOnOverlap | Xml.ParseRender |
| src/lib.rs:347-376 | `Revision::from_str` accepts `number:N` for any `i64`, including negative ones | `number:-1` gives `Number(Revnum(-1))`, a value `Revnum::from_raw` refuses | a negative revision number is rejected as an invalid revision | not executed | SvnTypes.ParseRevisionNegativeNumber | SvnTypes.ParseRevisionText |
| src/repos.rs:2296-2405 | `begin_report` boxes the authz callback before the native call and returns on `svn_result(ret)?` without freeing it | an authz callback and a failing native call: the boxed closure is neither freed nor owned by a report | the boxed callback is freed on the error path | not executed | Repos.BeginReportLeaksOnFailure | Repos.BeginReportReleasesOnce |
| src/wc.rs:833-943 | `get_update_editor4` boxes up to five callbacks before the native call and returns on `err?` without freeing them | a conflict callback and a failing native call: the boxed closure is neither freed nor owned by an editor | the boxed callbacks are freed on the error path | not executed | Wc.GetUpdateEditorLeaksOnFailure | Wc.GetUpdateEditorReleasesOnce |
