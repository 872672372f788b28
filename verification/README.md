# sec-certs dataset pipeline in Dafny

This project models the core of the sec-certs tool, which builds a dataset of Common Criteria certificates. It covers these parts of the pipeline:

- **Keyword scans:** counting matches and redacting them (`RuleMatcher`).
- **Certificate IDs:** estimating a certificate's own ID (`CertId`) and rewriting ID references into a canonical form per national scheme (`CertId`, `Registry`).
- **Collation:** pairing CSV records with their scans by file name (`Collate`).
- **Post-processing:** manufacturer names, security levels and URL fields (`Manufacturer`, `Fields`).
- **Reference graph:** direct referrers and their transitive closure (`RefGraph`).
- **Older tool:** the single-file script's normaliser, redaction and ID estimate (`Legacy`).
- **Command-line stages:** the gated stage order of the CLI (`Lifecycle`).
- **Web-app update:** reconciling a fresh snapshot with the stored one (`Sync`).
- **Reference segments:** the helpers that cut reference segments out of certificate text (`Segments`).
- **Certificate identity:** digests, dictionary serialisation, related CVEs and maintenance updates (`Certificate`).

Shared modules:

- `Wrappers`: `Option` and `Result`.
- `PyStr`: the Python `str` methods the code relies on.
- `Dict`: Python's insertion-ordered `dict`, as a sequence of pairs.
- `Seqs`, `Sorting` and `Records`.

Everything is pure functions over datatypes, sequences, sets and maps. Parts the model cannot see become parameters:

- the regular-expression engine, as sequences of hits per rule and a `findall` function;
- the CVE lookup;
- the truncated SHA-256 helper;
- the bracket matcher;
- the effects of the unseen dataset methods.

## Model

| member | source | states |
|---|---|---|
| RuleMatcher.GetLineNumber | sec_certs/extract_certificates.py:44-54 | -1 exactly when no cumulative line end passes the index; otherwise the first 1-based line whose cumulative end passes it |
| RuleMatcher.RStripEach | sec_certs/extract_certificates.py:139-148 | the chained `rstrip` calls leave a prefix of the input that does not end with the last stripped character |
| RuleMatcher.Normalize | sec_certs/extract_certificates.py:136-153 | the normalised match is printable and never longer than the raw match |
| RuleMatcher.NormalizeEnds | sec_certs/extract_certificates.py:136-153 | on printable input the normalised match is empty or neither starts with whitespace nor ends with ',' |
| RuleMatcher.NormalizedNoNewline | sec_certs/extract_certificates.py:136-153 | a normalised match never holds a line break |
| RuleMatcher.TallyCounts | sec_certs/extract_certificates.py:203-211 | counting hits raises each match's count by the number of hits equal to it; a match is present iff it was before or some hit produced it |
| RuleMatcher.TallySize | sec_certs/extract_certificates.py:203-205 | each hit adds at most one new match entry |
| RuleMatcher.ScanRulesCounts | sec_certs/extract_certificates.py:178-211 | after a group's rules are scanned, each (rule, match) count grew by exactly that rule's hits equal to the match |
| RuleMatcher.ScanRulesKeys | sec_certs/extract_certificates.py:190-194 | a rule key exists iff it existed before or the rule had at least one hit |
| RuleMatcher.ScanGroupsTable | sec_certs/extract_certificates.py:172-178 | a group's table is its rule lists scanned one after the other, groups sharing the dictionary entry |
| RuleMatcher.ScanGroupsKeys | sec_certs/extract_certificates.py:172-174 | every group named in the rules gets an entry, even without hits |
| RuleMatcher.BuildTableCounts | sec_certs/extract_certificates.py:170-219 | every group is present; a (group, rule, match) count equals the number of raw hits of that rule that normalise to the match and is absent when there are none; a rule is present iff it had a hit |
| RuleMatcher.HitWarningsExact | sec_certs/extract_certificates.py:198-201 | a warning is issued for exactly the normalised hits longer than 300 characters, naming the rule, and such hits are still counted |
| RuleMatcher.ScanRulesItems | sec_certs/extract_certificates.py:273-281 | scanning a group's rules grows the number of distinct items by at most the number of hits |
| RuleMatcher.BuildTableItems | sec_certs/extract_certificates.py:273-281 | `count_num_items_found` of the table is at most the number of raw hits |
| RuleMatcher.ReplaceMasks | sec_certs/extract_certificates.py:233-234 | replacing a line-free match by 'x' of its length keeps the length and every line break, changing characters only to 'x' |
| RuleMatcher.MaskAllMasks | sec_certs/extract_certificates.py:232-234 | replacing a list of line-free matches in turn masks the text in that sense |
| RuleMatcher.MaskOrder | sec_certs/extract_certificates.py:222-232 | the matches masked after each group are those of all groups so far, as a multiset, sorted longest first |
| RuleMatcher.ParseCertFileMasks | sec_certs/extract_certificates.py:166-236 | the redacted text has the input's length, differs only where 'x' was written and keeps every line break |
| CertId.MaxScanSpec | sec_certs/extract_certificates.py:297-302 | the most-frequent scan keeps its start when nothing beats the threshold, and otherwise ends on the first entry with strictly the largest count |
| CertId.KeywordCandidateSpec | sec_certs/extract_certificates.py:291-303 | the keyword candidate is '' when no count is positive and otherwise the first match whose count is strictly maximal |
| CertId.LongestSpec | sec_certs/extract_certificates.py:321-324 | the longest match is the first of maximal length |
| CertId.FileNameScanLast | sec_certs/extract_certificates.py:309-325 | the file-name candidate is the longest match of the last rule that matches the stem, or the start value when no rule matches |
| CertId.EstimateCertId | sec_certs/extract_certificates.py:284-350 | raises `KeyError` iff a keyword scan lacks `rules_cert_id`; otherwise '' or a string of length 5..60, chosen file name over front page over keywords among the valid candidates |
| CertId.AnssiFix | sec_certs/extract_certificates.py:2858-2866 | the ANSSI rewrite leaves no '_', turns the `ANSSi` typo into `ANSSIi`, puts '/' after the year and is the identity on clean IDs |
| CertId.ProbeYearNone | sec_certs/extract_certificates.py:2888-2894 | no year is found iff no year in [1996, 2030) gives a registry key |
| CertId.ProbeYearSome | sec_certs/extract_certificates.py:2888-2894 | a found year is the smallest registered one in range |
| CertId.CutAt | sec_certs/extract_certificates.py:2920-2925 | cutting at a character's first occurrence gives the longest prefix without it |
| CertId.SpainNumber | sec_certs/extract_certificates.py:2920-2925 | the Spanish number loses its `v`/`V` version suffix and is otherwise kept |
| CertId.SpainFix | sec_certs/extract_certificates.py:2909-2927 | the Spanish rewrite raises `IndexError` iff there are fewer than four dash-separated parts, and otherwise is `<year>-<batch>-INF-<number>` |
| CertId.BsiSplit | sec_certs/extract_certificates.py:2872 | a BSI ID splits into `BSI`, `DSZ`, `CC` and the parts of its tail |
| CertId.BsiFixJoin | sec_certs/extract_certificates.py:2897-2905 | the BSI rewrite is the dash-join of its number, version and year fields |
| CertId.BsiFixFields | sec_certs/extract_certificates.py:2869-2905 | the BSI rewrite starts with `BSI-DSZ-CC-` and splits back into exactly the fields it was built from |
| CertId.BsiNumberPadded | sec_certs/extract_certificates.py:2898-2901 | the number gains exactly one leading '0' when shorter than four characters |
| CertId.BsiVersionUpper | sec_certs/extract_certificates.py:2879-2881 | a `v`/`V` version part comes out upper-cased right after the number |
| CertId.BsiIdempotent | sec_certs/extract_certificates.py:2869-2905 | with a number of at least three characters and a year that is not version-like, a second BSI rewrite changes nothing |
| CertId.BsiBareShort | sec_certs/extract_certificates.py:2877-2901 | with an empty registry, a bare short number only gains its '0' |
| CertId.BsiPadTwice | sec_certs/extract_certificates.py:2899-2900 | a bare number of at most two characters is padded once on each of two passes |
| CertId.BsiNotIdempotent | sec_certs/extract_certificates.py:2899-2900 | `BSI-DSZ-CC-85` becomes `BSI-DSZ-CC-085`, then `BSI-DSZ-CC-0085` |
| CertId.FixBsi | sec_certs/extract_certificates.py:2854-2935 | outside the Spanish and Italian schemes a BSI ID is rewritten by the BSI rule alone |
| CertId.FixSpain | sec_certs/extract_certificates.py:2907-2927 | outside the Italian scheme a Spanish ID is rewritten by the Spanish rule alone, whatever earlier rules did |
| CertId.FixAnssiMistyped | sec_certs/extract_certificates.py:2859-2861 | the mistyped `ANSSi` prefix yields `ANSSIi`, not `ANSSI-` |
| CertId.FixOcsi | sec_certs/extract_certificates.py:2929-2933 | an Italian ID gets `/RC` appended exactly when it does not already end with it |
| CertId.FixOcsiIdempotent | sec_certs/extract_certificates.py:2929-2933 | rewriting an Italian ID twice adds no second suffix |
| CertId.FixAnssiExample | sec_certs/extract_certificates.py:2862-2864 | `ANSSI-CC-2010_40` becomes `ANSSI-CC-2010/40` |
| CertId.FixSpainExample | sec_certs/extract_certificates.py:2907-2927 | `2014-55-INF-1505v1` becomes `2014-55-INF-1505` |
| CertId.FixOcsiExample | sec_certs/extract_certificates.py:2929-2933 | `OCSI/CERT/ATS/01/2018` becomes `OCSI/CERT/ATS/01/2018/RC`, and a second rewrite keeps it |
| Records.EachItemGet | sec_certs/extract_certificates.py:2967-2970 | a pass over the distinct item keys keeps the key set and replaces exactly the visited items |
| Registry.RegisterGet | sec_certs/extract_certificates.py:2821-2849 | registering maps each mention to itself and leaves other keys alone |
| Registry.FixCertIdKeys | sec_certs/extract_certificates.py:2888-2894 | the rewrite consults only the registry's keys, never its values |
| Registry.FixAllSpec | sec_certs/extract_certificates.py:2938-2948 | the rewritten registry keeps its keys; a key whose rewrite differs maps to it and every other key keeps its value; it fails iff some key's rewrite fails |
| Registry.AddRefsGet | sec_certs/extract_certificates.py:2978-2985 | each canonical ID's count grows by the counts of the mentions that rewrite to it, and it is present iff it was or some mention reaches it |
| Registry.AddRefsTotal | sec_certs/extract_certificates.py:2978-2985 | no count is lost or invented: the total grows by exactly the mentions' total |
| Registry.ItemEntriesMentioned | sec_certs/extract_certificates.py:2988-2999 | every counted reference of a certificate is among the IDs collected from it |
| Registry.CountRefsOk | sec_certs/extract_certificates.py:2978-2999 | with the registry collected from all certificates, counting never hits a missing key |
| Registry.NormalizeCertIdsSpec | sec_certs/extract_certificates.py:2950-3004 | the normalisation fails only when a rewrite fails; it keeps every certificate and all its fields but the reference counter, whose total grows by the counts of its mentions |
| Collate.BaseNameOf | sec_certs/extract_certificates.py:2378 | the base name of `dir/name` is `name` |
| Collate.FileNameFromUrlOf | sec_certs/extract_certificates.py:1737-1740 | the file name of a URL is its last path segment with `%20` turned into spaces |
| Collate.TxtNameNoDot | sec_certs/extract_certificates.py:2409 | without a dot, `rfind` gives -1 and the slice drops the last character before `.txt` |
| Collate.ReportPdfNoSeparator | sec_certs/extract_certificates.py:2408 | without `__` the key loses its last character |
| Collate.NameMapGet | sec_certs/extract_certificates.py:2383-2400 | the name mapping files each non-empty base name under its last path |
| Collate.FiledAtSpec | sec_certs/extract_certificates.py:2433-2451 | a scan is found under a name iff the name is non-empty and is the base name of some scanned path, and it is the last such scan |
| Collate.ScanPassSpec | sec_certs/extract_certificates.py:2496-2518 | looping over all scanned paths attaches the scan filed under the target and keeps the old one otherwise |
| Collate.ConvPassLast | sec_certs/extract_certificates.py:2520-2590 | the update metadata attached is that of the last name converting to the target |
| Collate.AttachScansErr | sec_certs/extract_certificates.py:2454 | attaching fails only on a keyword scan without the ID rules |
| Collate.AttachScansFields | sec_certs/extract_certificates.py:2408-2455 | a scan attaches iff the base name of its path equals the record's derived name (case-sensitive); all other fields stay |
| Collate.PairUpdateMeta | sec_certs/extract_certificates.py:2520-2590 | an update's metadata is that of the last metadata name whose `.txt` equals the report's |
| Collate.PairUpdateStMeta | sec_certs/extract_certificates.py:2520-2590 | the target's metadata attaches only when some metadata name converts to the target's `.txt` |
| Collate.CollateSpec | sec_certs/extract_certificates.py:2403-2470 | the result has exactly the CSV keys; each record has its scans attached and updates paired, and a non-empty estimated ID is replaced by its rewrite against all collected IDs |
| Manufacturer.ManufacturersSpec | sec_certs/extract_certificates.py:2620-2629 | a name is listed iff some certificate carries it non-empty, and no name twice |
| Manufacturer.SortedManufacturers | sec_certs/extract_certificates.py:2631 | the sorted list is ordered and is a permutation of the collected names |
| Manufacturer.ReductionsGet | sec_certs/extract_certificates.py:2673-2690 | a name is reduced iff it is listed and another listed name properly prefixes it, and then to the first such name |
| Manufacturer.FirstPrefixSpec | sec_certs/extract_certificates.py:2675-2687 | the first prefixing name exists iff some listed name properly prefixes the query, and it does |
| Manufacturer.FirstPrefixShortest | sec_certs/extract_certificates.py:2675 | over the sorted list the first prefixing name is also the shortest |
| Manufacturer.SimpleNamePrefix | sec_certs/extract_certificates.py:2594-2598 | a simplified name is a prefix of the name |
| Manufacturer.Separated | sec_certs/extract_certificates.py:2640-2666 | a name stays whole iff neither split is accepted; otherwise every part is a listed manufacturer |
| Manufacturer.SeparatedPair | sec_certs/extract_certificates.py:2644-2663 | two listed names joined by a comma are split into the two |
| Manufacturer.ProcessAllSpec | sec_certs/extract_certificates.py:2722-2743 | exactly the certificates with a non-empty manufacturer get names, each whole or a listed manufacturer, each prefixed by its simplified name |
| Manufacturer.CertLab | sec_certs/extract_certificates.py:2746-2759 | the lab is absent iff empty, else the upper-cased lab up to its first space |
| Fields.ParseSecurityLevel | sec_certs/extract_certificates.py:1802-1818 | a level without `<br>` is kept whole with no items; otherwise the level part is no longer than the input |
| Fields.GroupsTagged | sec_certs/extract_certificates.py:1810-1816 | items written as `<br>item ` are read back in order |
| Fields.ParseSecurityLevelOf | sec_certs/extract_certificates.py:1802-1818 | a level followed by its tagged items parses back into the normalised level and items |
| Fields.FixPpUrlClean | sec_certs/extract_certificates.py:2141-2147 | a link with none of the three patterns is left alone |
| Fields.FixPpUrlScheme | sec_certs/extract_certificates.py:2145 | a plain-http link is moved to https and otherwise kept |
| Fields.FindStringTokenized | sec_certs/extract_certificates.py:3063-3070 | true iff every token-separated word occurs in the target |
| Fields.FindStringTokenizedPair | sec_certs/extract_certificates.py:3063-3070 | with one separator both halves must occur, in any order |
| Fields.HexValue | sec_certs/extract_certificates.py:3082-3084 | `int(s, 16)` of at most two characters lies in -255..255 when defined |
| Fields.ReplaceEscaped | sec_certs/extract_certificates.py:3078-3094 | the loop leaves no '%' in the result |
| Fields.ReplaceEscapedFront | sec_certs/extract_certificates.py:3079-3092 | a leading decodable escape is replaced by its character before the search restarts |
| Fields.ReplaceEscapedDecodesTwice | sec_certs/extract_certificates.py:3078-3094 | `%41` escaped as `%2541` decodes to `A`, not back to `%41` |
| Fields.DecodeOnceRoundTrip | sec_certs/extract_certificates.py:3078-3094 | decoding with the search resumed after each replacement undoes escaping for every string |
| RefGraph.AddReferrerGet | src/search_certficate.py:364-372 | adding a certificate's mentions puts it, non-empty and not self, once into each mentioned ID's list |
| RefGraph.CollectReferrersGet | src/search_certficate.py:345-372 | a referrer is listed iff some certificate with that estimated ID has a filtered scan that mentions the ID; lists stay duplicate-free |
| RefGraph.ReferencedBySpec | src/search_certficate.py:345-372 | the direct referrers of an ID are exactly the distinct non-empty estimated IDs of certificates whose filtered scans mention it |
| RefGraph.NoSelfReference | src/search_certficate.py:366 | an ID never directly refers to itself |
| RefGraph.DirectCount | src/search_certficate.py:377-379 | the direct count, the list length, equals the number of distinct referrers |
| RefGraph.Direct | src/search_certficate.py:399-403 | the indirect sets start with exactly the keys of the referrer lists |
| RefGraph.Pass | src/search_certficate.py:410-418 | a pass keeps the keys and only grows each set |
| RefGraph.PassBounded | src/search_certficate.py:410-418 | a pass adds only referrer IDs already present somewhere |
| RefGraph.PassShrinks | src/search_certficate.py:405-418 | a pass that changes something strictly shrinks the finite set of missing (ID, referrer) pairs |
| RefGraph.Closure | src/search_certficate.py:405-418 | the fixed-point loop terminates on every finite graph, cycles included, and keeps the keys |
| RefGraph.ClosureSpec | src/search_certficate.py:399-418 | the result keeps the keys, contains the start sets, stays within the referrer IDs and is closed under composition |
| RefGraph.ClosureSound | src/search_certficate.py:410-418 | everything the loop adds is reachable through direct references |
| RefGraph.ChainInClosed | src/search_certficate.py:410-418 | in a closed graph containing the direct sets, every chain's later nodes lie in its start's set |
| RefGraph.IndirectSpec | src/search_certficate.py:399-418 | the indirect set of an ID holds its direct set and is exactly the IDs reachable through direct references |
| RefGraph.CycleSelf | src/search_certficate.py:399-418 | an ID on a reference cycle is in its own indirect set |
| Legacy.LegacyNormalizeSpec | src/search_certficate.py:116-131 | the older normaliser's result is no longer than its input, does not start with whitespace and does not end with ',' |
| Legacy.LegacyNormalizeAgrees | src/search_certficate.py:116-131 | on printable input the older and newer normalisers agree |
| Legacy.LegacyRedactLength | src/search_certficate.py:174-179 | the unsorted redaction keeps the text's length |
| Legacy.LegacyRedactMasks | src/search_certficate.py:174-179 | with line-free matches it changes characters only to 'x' and keeps line breaks |
| Legacy.LegacyFileScanLast | src/search_certficate.py:457-467 | the file-name candidate is the first match of the last matching rule, each rule seeing one more trailing space |
| Legacy.FirstNonEmpty | src/search_certficate.py:475-482 | '' iff all candidates are empty, otherwise the first non-empty one |
| Legacy.LegacyChoose | src/search_certficate.py:475-482 | the choice is front page, then file name, then keywords, with no length bound |
| Legacy.LegacyEstimate | src/search_certficate.py:433-482 | raises `KeyError` iff a keyword scan lacks `rules_cert_id`, and otherwise returns the first non-empty candidate |
| Lifecycle.Requested | cc_cli.py:54-56 | the action set is deduplicated, `all` becomes build, download, convert and analyze, and `all` itself never remains |
| Lifecycle.Start | cc_cli.py:47-63 | without build and without input the run exits 1 with nothing run; build ignores a given input; the input is loaded only without build |
| Lifecycle.DownloadStage | cc_cli.py:65-70 | download runs iff requested and the web sources are parsed, and exits 1 when requested without them |
| Lifecycle.ConvertStage | cc_cli.py:72-77 | convert runs iff requested and the PDFs are downloaded, and exits 1 when requested without them |
| Lifecycle.AnalyzeStage | cc_cli.py:79-85 | analyze requires converted PDFs and then runs extraction followed by heuristics |
| Lifecycle.RunSpec | cc_cli.py:16-85 | stages run in the fixed order, once each, only if requested and their flag holds; a finished run ran every requested stage; no action word exits with 2 and no output path exits with 1, both before any call; otherwise the exit code is 1 iff a check of `main` failed |
| Lifecycle.NoDatasetExits | cc_cli.py:61-63 | without build and input the run exits before any stage |
| Lifecycle.BuildIgnoresInput | cc_cli.py:47-60 | with build or all, a given input snapshot changes nothing and is never loaded |
| Lifecycle.RunOrderIndependent | cc_cli.py:54-85 | the order and repetition of the arguments do not matter |
| Lifecycle.DownloadNeedsParsed | cc_cli.py:65-69 | build then download on unparsed sources exits 1 after the build |
| Lifecycle.AllRunsEverything | cc_cli.py:55-85 | `all` with every flag set runs build, download, convert, extract and heuristics in that order |
| Sync.Partitioned | sec_certs_page/cc/tasks.py:80-85 | new, removed and updated IDs are pairwise disjoint, new with updated is the current set and removed with updated is the stored set |
| Sync.PartitionUnique | sec_certs_page/cc/tasks.py:83-85 | any partition with those properties is the set differences and intersection |
| Sync.StatsSpec | sec_certs_page/cc/tasks.py:98-101 | the logged counts are the sizes of the three sets and sum to the sizes of the current and stored sets |
| Sync.CertStatesSpec | sec_certs_page/cc/tasks.py:87 | a state key is counted iff some certificate has it set, and its count is the number of such certificates |
| Sync.OfferAllSpec | sec_certs_page/cc/tasks.py:62-79 | the file store keeps its keys, never shrinks a size, ends at least as large as every offered file, and holds either the old file or an offered one |
| Sync.UpdateData | sec_certs_page/cc/tasks.py:28-130 | the work directory is removed, as the last effect, iff no setup step before the `try` raised |
| Sync.SetupFaultLeaks | sec_certs_page/cc/tasks.py:28-46 | a fault in the setup is raised with no failure entry logged and the work directory left in place |
| Sync.UpdateDataGuardedSpec | sec_certs_page/cc/tasks.py:28-130 | with the setup moved into the `try`, every run removes the work directory exactly once, last, and every raised fault is logged right before |
| Sync.UpdateDataSpec | sec_certs_page/cc/tasks.py:46-130 | the work directory is removed at most once, last; a failure in the `try` block is re-raised after a failure log entry with its error; a success logs no failure |
| Sync.UpdateDataOrder | sec_certs_page/cc/tasks.py:62-113 | a clean run moves files, logs the stats, then processes new, updated and removed certificates in that order |
| Sync.LateFaultLogsTwice | sec_certs_page/cc/tasks.py:90-128 | a failure after the success entry writes a second, failure entry |
| Segments.SwapSpec | src/sec_certs/model/references/segment_extractor.py:27-32 | inverting collects, under each value, every key holding it |
| Segments.SwapAndFilterSpec | src/sec_certs/model/references/segment_extractor.py:26-34 | the output keys are exactly the input values in the filter, each mapping to the non-empty set of keys holding it |
| Segments.Hits | src/sec_certs/model/references/segment_extractor.py:44-46 | a sentence is among the hits iff it is one of the sentences and contains some keyword |
| Segments.HitsAppend | src/sec_certs/model/references/segment_extractor.py:44-46 | the hits of a concatenation are the hits of each part, concatenated: the filter keeps sentence order and repeats |
| Segments.HitsOne | src/sec_certs/model/references/segment_extractor.py:44-46 | a single sentence is kept iff it contains some keyword |
| Segments.Window | src/sec_certs/model/references/segment_extractor.py:52-62 | every segment contains its hit sentence after the prepended context |
| Segments.WindowShape | src/sec_certs/model/references/segment_extractor.py:54-60 | three previous hits are prepended iff the index is at least 3 (otherwise the window starts with the hit), and the next hit is appended iff it is not the last (otherwise the window ends with the hit) |
| Segments.WindowsUpTo | src/sec_certs/model/references/segment_extractor.py:51-62 | the segment set holds exactly the windows and is no larger than the number of hit sentences |
| Segments.FillSegmentsSpec | src/sec_certs/model/references/segment_extractor.py:44-65 | the segments are absent iff no sentence contains a keyword, and otherwise are exactly the windows |
| Segments.RemoveEachSpec | src/sec_certs/model/references/segment_extractor.py:89-90 | removing items never lengthens the text, adds no characters and removes every one-character item |
| Segments.StripAllSpec | src/sec_certs/model/references/segment_extractor.py:86-91 | a missing strip list returns the text unchanged; otherwise the result is no longer and lacks every one-character item |
| Segments.StripAllLeavesJoined | src/sec_certs/model/references/segment_extractor.py:89-90 | stripping `ab` from `aabb` leaves `ab`: one pass does not remove occurrences it creates |
| Segments.SentenceBracketsSpec | src/sec_certs/model/references/segment_extractor.py:99-102 | a sentence yields one (last bracket group, keyword) pair per keyword it has a bracket for |
| Segments.FindBracketPatternSpec | src/sec_certs/model/references/segment_extractor.py:94-103 | at most one pair per sentence and keyword, and a pair is present iff its sentence has a last bracket before that keyword |
| Segments.WordsJoin | src/sec_certs/model/references/segment_extractor.py:301 | splitting the space-join of words gives the words back |
| Segments.CollapseSpec | src/sec_certs/model/references/segment_extractor.py:301 | collapsing keeps the words, is idempotent, and leaves no leading or trailing whitespace |
| Segments.ProcessSegmentPlain | src/sec_certs/model/references/segment_extractor.py:300-304 | a segment without keywords is only collapsed |
| Segments.ProcessSegmentOne | src/sec_certs/model/references/segment_extractor.py:300-304 | a segment that is one keyword becomes `REFERENCED_CERTIFICATE_ID` |
| Certificate.SerializedShape | sec_certs/certificate/cc_maintenance_update.py:32-34 | the serialised attribute list has eight distinct names and no `dgst` |
| Certificate.DgstOnly | sec_certs/certificate/cc_maintenance_update.py:36-38 | the digest depends only on the parent's digest and the name |
| Certificate.DgstParts | sec_certs/certificate/cc_maintenance_update.py:36-38 | with name hashes of one length, equal digests give equal parent digests and equal name hashes |
| Certificate.SameCertEquivalence | sec_certs/sample/certificate.py:41-42 | equality by digest is reflexive, symmetric and transitive |
| Certificate.MergeNew | sec_certs/sample/certificate.py:45 | merging new, distinct keys into a dictionary appends them in order |
| Certificate.ToDictShape | sec_certs/sample/certificate.py:44-45 | `to_dict` is `dgst` with the digest followed by exactly the serialised instance attributes, in the instance's order |
| Certificate.FromDictPops | sec_certs/sample/certificate.py:47-50 | `from_dict` leaves the caller's dictionary without `dgst` and with every other entry, one entry shorter when `dgst` was there, and unchanged on `KeyError`; the remaining values are the constructor's arguments in order |
| Certificate.FromDictAsWrittenFails | sec_certs/certificate/cc_maintenance_update.py:40-42 | the update's `from_dict` as written fails on every dictionary, its own output included, after popping `dgst` from the caller's dictionary |
| Certificate.FromDictRoundTrip | sec_certs/sample/certificate.py:44-50 | with `cls` bound to the update class, `from_dict` rebuilds the update from `to_dict` and leaves that dictionary holding exactly the serialised attributes |
| Certificate.UpdatesOf | sec_certs/certificate/cc_maintenance_update.py:44-47 | one update per maintenance entry, in order, with its title, links and date, the parent's digest, and no state, PDF data or heuristics |
| Certificate.UpdatesSameTitle | sec_certs/certificate/cc_maintenance_update.py:36-47 | two entries of one certificate with equal titles give updates that compare equal |
| Certificate.Found | sec_certs/sample/certificate.py:75-76 | the kept lookup results are exactly the non-missing ones |
| Certificate.UnionAll | sec_certs/sample/certificate.py:78 | an ID is in the union iff it is in one of the sets |
| Certificate.RelatedCves | sec_certs/sample/certificate.py:73-80 | no CPE matches clear the field; with matches it becomes the union of the non-missing lookups, or stays unchanged when every lookup is missing |

## Left out

- The regular-expression engine. Scan hits per rule are inputs, and `re.findall` on file names is a function parameter. The rule tables themselves are not modelled.
- File and encoding I/O, PDF conversion, JSON dumps and every `print_*` report.
- The multiprocessing drivers: their point is concurrency, which the model does not cover.
- CSV reading and HTML scraping.
- The HTML branch of collation. It indexes a string with `[0]` and `[1]` and would raise if taken, so it is treated as absent.
- graphviz and matplotlib output.
- CPE and CVE feed parsing. The CVE lookup is a function parameter.
- spaCy sentence splitting and the other heavy libraries. Sentences are an input sequence, and bracket matching is a function parameter.
- Celery, MongoDB and Sentry. The fault of the update run is a parameter naming the step that raises.
- The bodies of the unseen dataset methods. Their effects on the dataset flags are parameters.
- SHA-256. It is a function parameter.
- sec_certs/certificate/certificate.py, whose `Certificate` the maintenance update imports, is not part of this model. It is taken to behave like sec_certs/sample/certificate.py.
- The `CommonCriteriaCert` class is not part of this model. The instance dictionary of a maintenance update, whose attribute order that class fixes, is a parameter.
- The newer file name uses `/` as `os.sep`.
- Python's `isprintable` is modelled exactly on Latin-1 and on the main whitespace, format and private-use ranges. Unassigned code points are not modelled.
- Segments.StripAllSpec: does not promise that no occurrence of a longer item remains, because one `replace` pass can join two halves into a new occurrence (`Segments.StripAllLeavesJoined`).
- Segments.ProcessSegmentPlain: states the keyword replacement only for segments without keywords and, in `Segments.ProcessSegmentOne`, for a single-keyword segment; it does not state the general case, because the replacement of one keyword can create or destroy occurrences of another.
- Sync.UpdateDataSpec: does not model a failure while writing the failure log entry itself.
- Lifecycle.Start: models the truthiness of the input path as a boolean.
- Lifecycle.RunSpec: takes the action words as already parsed, so click's usage error for a word outside the five choices and its permission checks on the path options are not modelled; only the usage error for no word at all is.
- Manufacturer.CertLab: upper-cases ASCII letters only, through `PyStr.Upper`. Python's `str.upper()` maps every cased Unicode letter and can lengthen a string (`'ß'` becomes `'SS'`), so for a lab with other letters the result and the length relation in the ensures follow the ASCII mapping, not Python's.
- CertId.BsiVersionUpper: upper-cases the version part with the same ASCII-only mapping; a version part with non-ASCII lowercase letters is left as it is, where Python would change it.
- Fields.HexValue: accepts only ASCII hex digits. `int(s, 16)` also accepts any Unicode decimal digit (`'٤١'` reads as 0x41), where the model reports `ValueError`.
- Certificate.FromDictRoundTrip: holds when the instance dictionary lists the serialised attributes in the constructor's order. That order is set by the unseen parent constructor.
- Certificate.FromDict: rejects values whose kind does not fit the attribute, where Python would store them unchecked.

## Findings

| source | as written | input that shows it | evidently intended | confidence | as-written member | corrected member |
|---|---|---|---|---|---|---|
| sec_certs/extract_certificates.py:3078-3094 | after each replacement the search for '%' restarts at the start of the new string, so a decoded '%' is decoded again | `%2541`, the escaped form of `%41`, decodes to `A` | decode each escape once, resuming after the replacement | medium, not executed | Fields.ReplaceEscapedDecodesTwice | Fields.DecodeOnceRoundTrip |
| sec_certs/certificate/cc_maintenance_update.py:40-42 | `Certificate.from_dict(dct)` binds `cls` to the base class. If that base is abstract, as in sec_certs/sample/certificate.py:17-34, instantiating it raises `TypeError`; if not, the result is a bare base object and not an update | any dictionary, including one produced by `to_dict` | `super().from_dict(dct)`, binding `cls` to the update class | medium, not executed | Certificate.FromDictAsWrittenFails | Certificate.FromDictRoundTrip |
| sec_certs_page/cc/tasks.py:28-44 | the setup (version lookup, loading or creating the dataset, the auxiliary directory and the two `os.symlink` calls) runs before the `try`, so a fault there skips both the failure entry and the `finally` clause's `rmtree` | a run where `os.symlink` raises `FileExistsError` because the link is already present | run the setup inside the `try`, so that every run removes its work directory | medium, not executed | Sync.SetupFaultLeaks | Sync.UpdateDataGuardedSpec |
