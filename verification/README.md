# MapServer engine core, modelled in Dafny

A model of the deterministic core of MapServer, the C web-mapping engine,
and of the normalisation passes of its Python regression-test library. Each source
file of the core is one Dafny module:

| module | file | what it covers |
|---|---|---|
| `MapString` | mapstring.c | split, join, gsub, path building, URL and HTML-entity encoding, hashing, strlcat |
| `CgiUtil` | cgiutil.c | word cutting, hex unescaping, plus-to-space, character search, shell escaping |
| `TestLib` | mstestlib.py | test directives, requirement matching, demime, deversion, exponent and decimal fixes, CRLF, command placeholders |
| `OutputFormat` | mapoutput.c | the `KEY=VALUE` option list, validation, selection, the MIME list, applying a format under reference counting, default formats |
| `ConnPool` | mappool.c | register, request, release, close, close-unreferenced and final clean-up of shared connections |
| `Shapefile` | mapshape.c | byte swapping, .shp/.shx headers, the record index, shape-record validation, bounds, record writing, base names, max-feature trimming |
| `Wcs20`, `Wcs20Request`, `Wcs20Coverage` | mapwcs20.c | number parsing, SUBSET/SIZE/RESOLUTION values, the KVP loop, axis matching, finalisation, band lists |
| `Wms` | mapwms.c | GetMap's LAYERS, BBOX, BGCOLOR, STYLES and size rules, nested groups, capabilities version |
| `Template`, `LegendOrder` | maptemplate.c | tags, tag arguments, inline tags, [if] blocks, [metadata] tags, legend layer order |
| `MapIO` | mapio.c | channel handlers, direction checks, the printf length guard, the capture buffer, Content-type stripping |
| `MapFile` | mapfile.c | hex colours, layer and symbol lookup, the feature list, projection arguments, expression writing, configuration options |
| `MapUtil` | maputil.c | palette lookup, string expressions, class choice, extent constraint, group lookups, style allocation |
| `MapProject` | mapproject.c | projection comparison, definition strings, the PROJ file finder |
| `MapRaster` | mapraster.c | raster class choice and GD palette allocation |
| `MapRasterQuery` | maprasterquery.c | the result cache, queried pixels and the raster layer's shape access |
| `MapRendering` | maprendering.c | label style and the symbol tile cache |
| `MapScript` | mapscript/php3/mapscript_i.c | the CGI parameter store and bounds-checked getters |

Shared ground is stated once: `Wrappers` (`Option`, `Result`), `CStrings`
(the C library's ASCII case mapping, case-insensitive comparison, searches
and character classes), `CNumbers` (32-bit `int` wrap-around, `/`
truncating toward zero, `strtol` and `strtod` with the part of the string
they consume) and `HashTable` (MapServer's string table as a list of
entries).

Conventions. C strings are `seq<char>` and a NULL pointer is `None`. An
array with a count is a sequence. Objects that are shared and reference
counted (output formats, pool entries, cached tiles) live in sequences and
are referred to by index, and every operation is a function from the old
state to the new one. Doubles that the code only compares are reals.
Functions the core calls but that are not part of this model (PROJ, GDAL,
the expression parser, the time parser, the regular-expression engine)
are parameters. Where the code does something its authors evidently did not
intend, the model keeps the code as written next to a corrected
definition; the corrected one is what the rest of the model uses (see
"## Findings").

## Model

| member | source | states |
|---|---|---|
| MapString.Strlcat | mapserver/mapstring.c:31-56 | nothing is written when siz ≤ strlen(dst); otherwise the buffer holds dst followed by as much of src as fits in siz − 1 characters, and the result is strlen(src) + min(siz, strlen(dst)), at least siz exactly when src was cut |
| MapString.PiecesAreLeftmost | mapserver/mapstring.c:194-250 | the cut points gsub uses are the leftmost, non-overlapping occurrences of the pattern |
| MapString.PiecesRebuild | mapserver/mapstring.c:194-250 | the pieces between occurrences, joined by the pattern, give the input back |
| MapString.GsubJoinsPieces | mapserver/mapstring.c:194-250 | gsub is those same pieces joined by the replacement, so inserted text is never rescanned |
| MapString.GsubLength | mapserver/mapstring.c:194-250 | the result grows by the length of the replacement minus the length of the pattern for each occurrence replaced |
| MapString.GsubSelf | mapserver/mapstring.c:194-250 | replacing a pattern by itself changes nothing |
| MapString.StripPath | mapserver/mapstring.c:269-278 | the result is the text after the last '/', or the whole name when it has none |
| MapString.LastSeparator | mapserver/mapstring.c:283-308 | the position getPath cuts at is the last '/' or '\\' of the name |
| MapString.GetPath | mapserver/mapstring.c:283-308 | "./" when the name has no separator or ends with one; otherwise the name up to and including its last separator |
| MapString.PathSplits | mapserver/mapstring.c:269-308 | for a Unix path with a directory part, getPath followed by stripPath gives the path back |
| MapString.BuildPath | mapserver/mapstring.c:315-358 | a NULL path fails, an over-long pair fails; the path is kept when abs_path is NULL or empty, or the path starts with a separator or has ':' second; otherwise abs_path, a '/' unless it already ends with a separator, and the path |
| MapString.BuildPath3 | mapserver/mapstring.c:366-372 | msBuildPath3 builds path1 + path2 first and then puts abs_path in front of the result |
| MapString.BuildPathKeepsFileName | mapserver/mapstring.c:315-358 | building a path keeps its file name |
| MapString.SplitTokensFree | mapserver/mapstring.c:431-481 | no token of split holds the delimiter |
| MapString.SplitCount | mapserver/mapstring.c:431-481 | split yields one token more than there are maximal runs of the delimiter |
| MapString.JoinSplit | mapserver/mapstring.c:431-481 | a text without two adjacent delimiters is the join of its split |
| MapString.JoinStrings | mapserver/mapstring.c:701-725 | NULL for a NULL or empty array or a NULL delimiter; otherwise the elements joined by the delimiter |
| MapString.JoinNoTrailingDelimiter | mapserver/mapstring.c:701-725 | the joined text ends with the last element, so no trailing delimiter is added |
| MapString.SplitJoin | mapserver/mapstring.c:431-481 | splitting the join of delimiter-free elements, the inner ones non-empty, gives the elements back |
| MapString.EncodeUrl | mapserver/mapstring.c:483-516 | the encoded text consists of letters, digits, '+' and '%' only, and is never shorter than the input |
| MapString.EncodeHtmlEntities | mapserver/mapstring.c:526-588 | the encoded text holds none of < > " ', and a text without the five special characters is unchanged |
| MapString.EntityCharOfEntity | mapserver/mapstring.c:598-665 | each of the five entities the encoder writes is recognised as its character |
| MapString.DecodeWithoutEntities | mapserver/mapstring.c:598-665 | text without '&' decodes to itself |
| MapString.HtmlEntitiesRoundTrip | mapserver/mapstring.c:526-665 | decoding undoes encoding, for every text |
| MapString.StrCatAlloc | mapserver/mapstring.c:670-699 | a NULL source keeps the destination; otherwise the result is the destination (empty when NULL) followed by the source |
| MapString.HashString | mapserver/mapstring.c:732-755 | 32 lower-case hexadecimal characters, where byte k is the sum modulo 256 of the input bytes at positions ≡ k (mod 16) |
| CgiUtil.MakeWord | mapserver/cgiutil.c:280-293 | the word is the longest prefix of the line free of the stop character; the stop, when present, is consumed and the rest is what follows it, and nothing is left when the line has no stop |
| CgiUtil.MakeWordRebuilds | mapserver/cgiutil.c:249-293 | the word, the consumed stop character and the shifted rest put back together give the original line |
| CgiUtil.SkipRun | mapserver/cgiutil.c:266-267 | the skip loop stops at the first character that is not the skip character |
| CgiUtil.MakeWordSkipIsMakeWord | mapserver/cgiutil.c:262-278 | makeword_skip is makeword applied after the maximal leading run of the skip character |
| CgiUtil.X2cHex | mapserver/cgiutil.c:322-329 | on two hexadecimal digits of either case the decoded byte is 16·hi + lo |
| CgiUtil.UnescapeWithoutPercent | mapserver/cgiutil.c:331-341 | text without '%' is left as it is |
| CgiUtil.UnescapeLength | mapserver/cgiutil.c:331-341 | when every '%' is followed by two hexadecimal digits, unescaping succeeds and the decoded buffer is two bytes shorter per '%' |
| CgiUtil.PlusToSpace | mapserver/cgiutil.c:343-347 | every '+' becomes a space and every other character stays, so the length is kept |
| CgiUtil.PlusToSpaceIdempotent | mapserver/cgiutil.c:343-347 | converting twice is converting once |
| CgiUtil.PlusToSpaceAppend | mapserver/cgiutil.c:343-347 | the conversion works character by character, so it distributes over concatenation |
| CgiUtil.X2cOfEncoded | mapserver/cgiutil.c:322-329 | x2c reads back the two upper-case digits msEncodeUrl writes for a byte |
| CgiUtil.UrlRoundTrip | mapserver/cgiutil.c:331-347 | for every C string, unescape_url(plustospace(msEncodeUrl(s))) gives s back |
| CgiUtil.Ind | mapserver/cgiutil.c:385-392 | the index of the first occurrence of the character, or −1 exactly when it does not occur |
| CgiUtil.Rind | mapserver/cgiutil.c:349-354 | the index of the last occurrence of the character, or −1 exactly when it does not occur |
| CgiUtil.IndRind | mapserver/cgiutil.c:349-392 | ind and rind agree on absence, the first occurrence never follows the last, and when the character occurs they coincide exactly when it occurs once |
| CgiUtil.EscapeShellLength | mapserver/cgiutil.c:397-410 | the escaped command is longer by exactly one backslash per special character |
| CgiUtil.EscapeShellRoundTrip | mapserver/cgiutil.c:397-410 | removing the inserted backslashes gives the command back |
| TestLib.GetMapfileListPrefersArguments | msautotest/pymod/mstestlib.py:40-59 | when any argument ends in `.map` the list is exactly the `.map` arguments; otherwise it is exactly the `.map` names of the directory listing |
| TestLib.HasRequiresMeansSubstrings | msautotest/pymod/mstestlib.py:64-70 | the build meets a test's requirements iff every required item occurs as a substring of the version string |
| TestLib.SplitOnceMatchesWords | msautotest/pymod/mstestlib.py:90 | a split with one cut gives at most two pieces; the first is the first word and the second splits into the remaining words |
| TestLib.WordsOfJoin | msautotest/pymod/mstestlib.py:84 | words joined by single spaces split back into the same words |
| TestLib.ReadTestDirectives | msautotest/pymod/mstestlib.py:75-101 | a map file always yields at least one test, and its requirements are those its lines name |
| TestLib.ScanRunsEmpty | msautotest/pymod/mstestlib.py:97-99 | the default test is added exactly when no line defines a test |
| TestLib.RunParmsLine | msautotest/pymod/mstestlib.py:88-92 | a `RUN_PARMS:` line naming an output file and a command yields that one test with the command kept whole |
| TestLib.RunParmsDefaultLine | msautotest/pymod/mstestlib.py:93-95 | a `RUN_PARMS:` line naming only an output file yields one test with the default `shp2img` command |
| TestLib.Demime | msautotest/pymod/mstestlib.py:107-115 | the result is a suffix of the data |
| TestLib.DemimeStripsHeader | msautotest/pymod/mstestlib.py:111-114 | everything up to and including the first empty line is removed |
| TestLib.DemimeWithoutBlankLine | msautotest/pymod/mstestlib.py:111-115 | data holding no empty line is left as it is |
| TestLib.DeversionRemovesComment | msautotest/pymod/mstestlib.py:120-140 | the corrected pass removes the version comment together with the character before it and the one after it, wherever the comment lies |
| TestLib.DeversionAsWrittenAtStart | msautotest/pymod/mstestlib.py:138 | as written, a comment at the very start of the data keeps the whole data but its last character in front of the text after the comment |
| TestLib.DeversionAsWrittenAtEnd | msautotest/pymod/mstestlib.py:132-136 | as written, a comment whose `-->` is followed by at most one character of the data is not found and the data is left as it is |
| TestLib.FixExponentMatchesFix | msautotest/pymod/mstestlib.py:145-160 | the scanning pass agrees on every input with a reference reading that rewrites each `e+0DD"` and raises where the source indexes past the end |
| TestLib.FixRewrites | msautotest/pymod/mstestlib.py:152-154 | each `e+0` followed by two digits and a quote loses its `0` |
| TestLib.FixPlain | msautotest/pymod/mstestlib.py:150-155 | text without an `e` passes through unchanged |
| TestLib.MatchAtSound | msautotest/pymod/mstestlib.py:170 | a match found at a position is a run of digits, a dot and six or more fraction digits, and no longer one starts there |
| TestLib.MatchAtComplete | msautotest/pymod/mstestlib.py:170 | every such number at a position is found, and the longest one is the match |
| TestLib.NextMatchLeftmost | msautotest/pymod/mstestlib.py:174 | the next match is the leftmost one from the scan position |
| TestLib.TruncateMatchesTruncFrom | msautotest/pymod/mstestlib.py:165-186 | the pass equals the reference reading in which every match loses its last digit and all else is kept |
| TestLib.TruncateUnchangedIff | msautotest/pymod/mstestlib.py:179-184 | the data is left as it is exactly when no number matches |
| TestLib.Crlf | msautotest/pymod/mstestlib.py:198-200 | data holding a NUL byte is treated as binary and left as it is |
| TestLib.CrlfNormalises | msautotest/pymod/mstestlib.py:202 | lines joined by CR LF come out joined by LF |
| TestLib.FlagsMeanOccurrence | msautotest/pymod/mstestlib.py:275-283 | the demime and deversion flags are set iff the command holds `[RESULT_DEMIME]` or `[RESULT_DEVERSION]` |
| TestLib.ResultPlaceholders | msautotest/pymod/mstestlib.py:285-287 | all three result placeholders expand to the same `result/` path |
| TestLib.ProgramPlaceholders | msautotest/pymod/mstestlib.py:288-289 | `[MAPFILE]` and `[SHP2IMG]` expand to the map file and the binary |
| TestLib.ExpandJoin | msautotest/pymod/mstestlib.py:285-292 | a command is expanded word by word |
| TestLib.ReplaceSelf | msautotest/pymod/mstestlib.py:285 | replacing a string by itself changes nothing |
| TestLib.PostProcessLines | msautotest/pymod/mstestlib.py:298-305 | a plain text result with neither flag only has its line ends normalised |
| OutputFormat.FirstKeyFromIsFirst | mapserver/mapoutput.c:607-612 | the option found carries the key and is the first that does; none is found only when no option carries it |
| OutputFormat.GetOptionFound | mapserver/mapoutput.c:600-615 | an option is read from the first `KEY=` entry (key compared without case), as the text after the `=` |
| OutputFormat.GetOptionMissing | mapserver/mapoutput.c:600-615 | a key no entry carries reads as the default |
| OutputFormat.SetOptionReplaces | mapserver/mapoutput.c:643-654 | setting a key already present replaces its first entry in place and nothing else changes |
| OutputFormat.SetOptionAppends | mapserver/mapoutput.c:659-664 | setting a new key appends `KEY=VALUE` and keeps the existing entries |
| OutputFormat.GetAfterSet | mapserver/mapoutput.c:600-665 | reading a key back after setting it gives the value set |
| OutputFormat.GetAfterSetOther | mapserver/mapoutput.c:600-665 | setting one key leaves reading a key with a different first letter unchanged |
| OutputFormat.GetAfterSetDistinct | mapserver/mapoutput.c:600-665 | setting one key leaves reading every key that differs from it ignoring case unchanged, when neither key holds '=' |
| OutputFormat.GetAfterSetExclusive | mapserver/mapoutput.c:600-665 | setting one key leaves reading another unchanged whenever no option can carry both keys |
| OutputFormat.ValidateModes | mapserver/mapoutput.c:705-727 | RGB is valid exactly when opaque, RGBA exactly when transparent, every other mode always |
| OutputFormat.SelectOutputFormat | mapserver/mapoutput.c:427-466 | a selected format is in the map and the map's image type becomes its name; without a selection the map is unchanged |
| OutputFormat.SelectByMime | mapserver/mapoutput.c:441-447 | the first format whose MIME type matches, ignoring case, is chosen even when an earlier one matches by name |
| OutputFormat.SelectByName | mapserver/mapoutput.c:449-453 | without a MIME-type match the first format whose name matches is chosen |
| OutputFormat.SelectFindsIff | mapserver/mapoutput.c:434-453 | selection succeeds exactly when the type is non-empty and some listed format carries it as MIME type or name |
| OutputFormat.SelectAfterAlloc | mapserver/mapoutput.c:378-453 | a freshly allocated format with an unused name is what selecting that name finds |
| OutputFormat.MimeList | mapserver/mapoutput.c:671-696 | the list holds at most the maximum, the MIME types are distinct ignoring case, each is taken from its first occurrence in list order, and when the maximum is not reached every listed MIME type is covered |
| OutputFormat.AllocOutputFormat | mapserver/mapoutput.c:378-421 | the new format is appended to the heap and to the map's list with the name and driver given; nothing else of the map changes |
| OutputFormat.Clone | mapserver/mapoutput.c:558-591 | the clone copies every setting and starts unreferenced |
| OutputFormat.KindOfComplete | mapserver/mapoutput.c:191-297 | a driver name recognised by one of the tests of `msCreateDefaultOutputFormat` is classified as that kind |
| OutputFormat.NamesExclusive | mapserver/mapoutput.c:191-297 | no driver name passes two of the tests |
| OutputFormat.BuiltinOfKind | mapserver/mapoutput.c:202-304 | a recognised non-GDAL driver gets its default exactly when its library is built in; a GDAL driver needs GDAL and a driver that initialises, and is named after the text past `gdal/` |
| OutputFormat.CreateDefaultOutputFormat | mapserver/mapoutput.c:185-307 | a created default is appended to the map and nothing else changes; an unknown or unbuilt driver leaves the map as it is |
| OutputFormat.DefaultCreates | mapserver/mapoutput.c:323-348 | creating each of the nine defaults succeeds exactly when the build has it, and the new format answers to the default's type |
| OutputFormat.StepCreates | mapserver/mapoutput.c:323-324 | a default whose type the map does not offer is created |
| OutputFormat.ApplyDefaultsOffers | mapserver/mapoutput.c:313-353 | afterwards every type the map offered still selects a format and every default type the build supports does too |
| OutputFormat.ApplyDefaultOutputFormats | mapserver/mapoutput.c:313-353 | the map only gains formats and keeps its image type |
| OutputFormat.ApplyDefaultsIdempotent | mapserver/mapoutput.c:313-353 | applying the defaults twice is applying them once |
| OutputFormat.Free | mapserver/mapoutput.c:359-376 | freeing marks exactly the given entry dead and changes nothing else |
| OutputFormat.InterlacedIsNotOff | mapserver/mapoutput.c:512-514 | interlacing is on unless the INTERLACE option reads OFF in any case, and on when it is absent |
| OutputFormat.QualityReadBack | mapserver/mapoutput.c:532-536 | a quality written as decimal text reads back as the same number |
| OutputFormat.InterlaceReadBack | mapserver/mapoutput.c:538-544 | INTERLACE set to ON or OFF reads back as on or off |
| OutputFormat.AdjustOverrides | mapserver/mapoutput.c:518-545 | every override given holds of the adjusted format, and a transparency override turns RGB into RGBA |
| OutputFormat.AdjustTouches | mapserver/mapoutput.c:518-545 | adjusting changes only the transparency, the image mode and the options |
| OutputFormat.AdjustValidity | mapserver/mapoutput.c:525-530 | a valid format stays valid after the edits unless transparency is turned off on an RGB or RGBA format |
| OutputFormat.ApplyOutputFormat | mapserver/mapoutput.c:472-552 | the heap grows by at most the one clone, the new target is a heap entry, and without a format the target is kept or cleared |
| OutputFormat.ApplySplits | mapserver/mapoutput.c:486-552 | applying a format is releasing the old target, then installing the format, then freeing the old target when its count fell below one |
| OutputFormat.ApplyReferences | mapserver/mapoutput.c:486-552 | the old target loses one reference and dies with its last; a format that must change and is referenced is cloned and left untouched, otherwise it gains one reference |
| OutputFormat.ApplyOverrides | mapserver/mapoutput.c:505-545 | the new target carries every override given |
| OutputFormat.ApplyKeepsValid | mapserver/mapoutput.c:505-545 | a valid format applied without a transparency override keeps its driver, image mode and transparency, so it stays valid |
| OutputFormat.ApplyTargetLive | mapserver/mapoutput.c:486-552 | the new target is live unless the target is handed its own last reference |
| OutputFormat.ApplyToSelfDangles | mapserver/mapoutput.c:486-551 | applying the target's own format while it holds its last reference leaves the target pointing at a freed format |
| OutputFormat.ApplyNothing | mapserver/mapoutput.c:486-497 | without a new format the target gives up one reference and is cleared and freed when that was its last |
| ConnPool.Register | mapserver/mappool.c:223-313 | a layer without CONNECTION is refused and the pool is unchanged; otherwise exactly one entry is appended, with the layer's type, connection, debug level, the handle and callback, reference count 1 and the caller's thread, and the older entries are kept |
| ConnPool.RegisterLifespan | mapserver/mappool.c:292-310 | the new entry lives FOREVER exactly when CLOSE_CONNECTION is DEFER in any case; the call reports no error exactly when the key is unset, NORMAL or DEFER in any case |
| ConnPool.RegisterGood | mapserver/mappool.c:270-285 | registering a handle not yet pooled keeps counts non-negative, unreferenced entries unheld and handles distinct |
| ConnPool.Request | mapserver/mappool.c:378-418 | no handle (and no change) exactly when the layer has no CONNECTION or no entry has the same type, the same connection string ignoring case and is free or held by the caller; otherwise the first such entry's handle is returned and only that entry changes: one more reference, held by the caller, the layer's debug level when it has one |
| ConnPool.RequestGood | mapserver/mappool.c:387-402 | a request keeps the pool invariant |
| ConnPool.Release | mapserver/mappool.c:429-474 | a layer without CONNECTION is ignored; an unknown (type, connection, handle) is an error that changes nothing; otherwise the first matching entry loses one reference, is released by its thread when the count reaches zero, and is closed exactly when that happens to a ZEROREF entry |
| ConnPool.ReleaseGood | mapserver/mappool.c:442-457 | releasing an entry the caller holds keeps the pool invariant, including the ZEROREF entry that is closed at count zero |
| ConnPool.RequestRelease | mapserver/mappool.c:378-474 | releasing the handle a request has just handed out, from the same layer, restores the pool exactly |
| ConnPool.FirstHeldAt | mapserver/mappool.c:442-446 | the matching entry found by a release is the one at the first index whose type, connection and handle match |
| ConnPool.Close | mapserver/mappool.c:323-367 | closing slot i shortens the table by one, moves the last entry into slot i, keeps every other slot, and records the callback's call on the closed handle |
| ConnPool.CloseRemoves | mapserver/mappool.c:353-365 | closing removes exactly the entry at slot i: the remaining entries plus it are the old entries as a multiset |
| ConnPool.CloseGood | mapserver/mappool.c:323-367 | closing keeps the pool invariant |
| ConnPool.CloseUnique | mapserver/mappool.c:358-365 | closing keeps handles distinct |
| ConnPool.ReferencedCount | mapserver/mappool.c:490-499 | the reference description of what survives: each referenced entry as often as it occurs, no unreferenced one |
| ConnPool.CloseUnreferencedFromCount | mapserver/mappool.c:490-499 | when the slots from i on are referenced, the backwards scan from slot i keeps every referenced connection as many times as it occurred and drops every unreferenced one |
| ConnPool.CloseUnreferencedKeeps | mapserver/mappool.c:482-503 | after closing the unreferenced connections, the table holds exactly the referenced entries (as a multiset, untouched) and every remaining entry has a non-zero count |
| ConnPool.CloseUnreferencedFromGood | mapserver/mappool.c:490-499 | the scan keeps the pool invariant |
| ConnPool.FinalCleanup | mapserver/mappool.c:512-522 | the final cleanup leaves the table empty |
| ConnPool.FinalCleanupCloses | mapserver/mappool.c:512-522 | the final cleanup closes every entry once, slot 0 first and then the entries moved into slot 0 from the end of the table |
| ConnPool.CloseFirstOrder | mapserver/mappool.c:358-365 | one cleanup step closes slot 0 and leaves the rest to be closed in the order the shortened table gives |
| Shapefile.SwapWord | mapserver/mapshape.c:53-63 | the loop swaps bytes pairwise from both ends, and the result is the word's bytes in reverse order |
| Shapefile.SwapTwice | mapserver/mapshape.c:53-63 | swapping a word twice gives the word back |
| Shapefile.SwapReadsBigEndian | mapserver/mapshape.c:53-63 | on a little-endian host, swapping a big-endian word and reading it natively gives its big-endian value |
| Shapefile.Open | mapserver/mapshape.c:264-320 | opening succeeds exactly when the .shx magic is 00 00 27 0A/0D and the record count, (BE32(24)·2 − 100)/8 in 32-bit C arithmetic, lies in [0, 256000000]; it then keeps the .shp file size, the .shx record count, shape type byte 32 and the bounds bytes 36..99 |
| Shapefile.HeaderBytes | mapserver/mapshape.c:96-132 | the 100-byte header carries the magic, the big-endian length field at 24, version 1000 and the shape type little-endian at 28 and 32, and the bounds from 36 on |
| Shapefile.WriteHeader | mapserver/mapshape.c:85-178 | the .shp and .shx headers agree except for the length field, and the index holds 8 bytes per record |
| Shapefile.OpenReadsWritten | mapserver/mapshape.c:156-173 | opening the headers writeHeader wrote gives back the even file size, the record count, the shape type and the bounds |
| Shapefile.LoadAll | mapserver/mapshape.c:1102-1126 | every entry's offset and size are the big-endian words doubled, in 32-bit arithmetic |
| Shapefile.LoadPage | mapserver/mapshape.c:1055-1100 | a negative page is refused; otherwise the cache keeps its length |
| Shapefile.LoadPageAgrees | mapserver/mapshape.c:1055-1100 | the entries of the page and below the record count are those LoadAll decodes, and every other cached entry is unchanged |
| Shapefile.LoadAllReadsWritten | mapserver/mapshape.c:1108-1120 | loading the index writeHeader wrote gives back every even, non-negative offset and size below 2^31 |
| Shapefile.ReadParts | mapserver/mapshape.c:1296-1331 | with the offsets checked, the lines exist exactly when every part lies in the vertex array with at least one vertex; there is one line per part, and none is empty |
| Shapefile.ReadPartsAsWrittenAgrees | mapserver/mapshape.c:1296-1331 | on valid parts, the loop as written reads exactly the lines the checked reader gives |
| Shapefile.ReadPartsAsWrittenOverruns | mapserver/mapshape.c:1273-1331 | a 72-byte record with one part at offset −1 passes the size check, but the loop reads its second vertex past the record; the checked reader refuses it |
| Shapefile.ReadPartsVertexCount | mapserver/mapshape.c:1296-1331 | the lines read hold nPoints − parts[0] vertices in all |
| Shapefile.PartsValidIff | mapserver/mapshape.c:1297-1312 | parts are valid exactly when the first is non-negative and every part's count (next offset, or nPoints, minus its own) is positive |
| Shapefile.ReadShape | mapserver/mapshape.c:1165-1550 | an out-of-range record or SHX size 4 leaves the initial shape; a non-NULL shape carries its record number and a box; polygon types give polygons, arc types lines, point and multipoint types points |
| Shapefile.ReadArc | mapserver/mapshape.c:1203-1371 | NULL exactly when the record is under 52 bytes, the counts are out of range or overrun the record, or the parts are invalid; otherwise the box is bytes 12..43 and the lines are the parts read |
| Shapefile.ReadArcNull | mapserver/mapshape.c:1237-1312 | the NULL cases of a polygon or arc record, listed: short record, nPoints outside [0, 50M] or nParts outside [0, 10M], 52 + 4·nParts + 16·nPoints over the record size, a negative first part, or a part of count ≤ 0 |
| Shapefile.ReadMultiPoint | mapserver/mapshape.c:1372-1478 | NULL exactly when the record is under 48 bytes, nPoints is outside [0, 50M], or the required size (with the M/Z arrays for types 18 and 28) exceeds the record; otherwise one line of nPoints vertices read from byte 48 |
| Shapefile.ReadPoint | mapserver/mapshape.c:1480-1545 | NULL exactly when the record is under 28 bytes; otherwise one vertex from byte 12, which is also the box |
| Shapefile.ReadBounds | mapserver/mapshape.c:1552-1612 | an empty file or a record outside [−1, nRecords) fails with a zero box; −1 gives the file's x/y bounds; a NULL record or a NaN minimum x fails; a point's vertex is both corners |
| Shapefile.ReadBoundsAgrees | mapserver/mapshape.c:1576-1607 | for a record that reads as a shape, the box read alone is the shape's box |
| Shapefile.Extend | mapserver/mapshape.c:927-954 | growing a box over vertices keeps the old box inside and contains every vertex |
| Shapefile.WriteShape | mapserver/mapshape.c:649-957 | the record goes at the old file size, the index gains that offset and the record size, the file grows by size + 8, the record header numbers it nRecords (1-based), the call returns the old count, and the file bounds contain every vertex (and the old bounds unless this is the first record) |
| Shapefile.WritePoint | mapserver/mapshape.c:557-647 | a file not of type 1 refuses with −1 and nothing changes |
| Shapefile.WritePointIsWriteShape | mapserver/mapshape.c:557-647 | on a point file, writing a point is writing a one-vertex shape |
| Shapefile.WriteShapeContiguous | mapserver/mapshape.c:685-925 | appending keeps records back to back after the 100-byte header, the file ending after the last one |
| Shapefile.WriteShapeEven | mapserver/mapshape.c:760-898 | appending keeps every offset, size and the file size even |
| Shapefile.RecordHeaderReads | mapserver/mapshape.c:905-915 | the record header reads back as the record number, the size in 16-bit words and the shape type |
| Shapefile.PartOffsetsRead | mapserver/mapshape.c:711-719 | the part array written for non-empty lines is valid for the reader |
| Shapefile.WrittenPartsRead | mapserver/mapshape.c:711-719 | the part array written for non-empty lines reads back with each part's count equal to its line's length |
| Shapefile.TrimToMax | mapserver/mapshape.c:2434-2445 | with maxfeatures ≤ 0 the selection is unchanged; otherwise a shape stays selected exactly when it was selected and at most maxfeatures selected shapes lie at or after it |
| Shapefile.TrimmedCount | mapserver/mapshape.c:2434-2445 | trimming only clears bits and leaves min(maxfeatures, number selected) shapes selected |
| Shapefile.BaseNameAsWritten | mapserver/mapshape.c:229-236 | the scan reads before the string exactly when the name is empty |
| Shapefile.BaseNameCut | mapserver/mapshape.c:229-236 | the name is cut at a '.' exactly when no '.', '/' or '\\' follows it; otherwise it is kept whole |
| Shapefile.BaseNameOfEmpty | mapserver/mapshape.c:229-236 | the empty name is the one input where the scan as written fails; the corrected base name keeps it empty |
| Wcs20.ParseInteger | mapserver/mapwcs20.c:65-78 | the value is `strtol` base 0 cast to a 32-bit int; nothing is read exactly when no digit follows the optional blanks and sign, and a completely read string ends in a digit |
| Wcs20.ParseDouble | mapserver/mapwcs20.c:90-103 | nothing is read exactly when no digit, or '.' and a digit, follows the optional blanks and sign |
| Wcs20.ParseIntegerOfDecimal | mapserver/mapwcs20.c:65-78 | every 32-bit integer written with `%d` is read back completely, with its value |
| Wcs20.ParseIntegerTrailing | mapserver/mapwcs20.c:65-78 | a number followed by text that is no digit and no 'x' is only partly read (DONE), with the number's value |
| Wcs20.ParseTimeOrScalar | mapserver/mapwcs20.c:112-151 | the trimmed bound is '*' exactly when it is unbounded, an empty bound is an error, and a scalar is the completely read double of the trimmed text |
| Wcs20.ParseSubset | mapserver/mapwcs20.c:361-473 | an empty axis fails; the operation is a trim exactly when a non-empty maximum is given; a slice has a bound that is not '*'; a trim has not both bounds '*', increasing bounds and bounds of one kind |
| Wcs20.ParseSubsetAsWritten | mapserver/mapwcs20.c:385-462 | as written, an accepted time trim has the stored times increasing, where a '*' bound stores no time of its own and is compared through whatever its storage holds |
| Wcs20.ParseSubsetAsWrittenAgrees | mapserver/mapwcs20.c:385-462 | the interval check as written and the corrected one agree on every subset except a time trim with a '*' bound |
| Wcs20.ParseSubsetAsWrittenRefusesOpenStart | mapserver/mapwcs20.c:456-462 | a time trim t(*,T) is refused as written whenever the time stored for '*' is not below T, and accepted as the open interval up to T by the corrected reading |
| Wcs20.ParseSubsetOpenTime | mapserver/mapwcs20.c:397-412 | corrected: a time trim with one '*' end and one time is accepted as the half-open interval at that time |
| Wcs20.ParseSubsetSlice | mapserver/mapwcs20.c:396-412 | a scalar minimum without maximum gives a slice at that point |
| Wcs20.ParseSubsetTrim | mapserver/mapwcs20.c:413-471 | two scalar or '*' bounds, not both '*' and increasing, give a trim between them |
| Wcs20.ParseSubsetKvp | mapserver/mapwcs20.c:483-528 | a value without '(' is refused |
| Wcs20.ParseSubsetKvpAt | mapserver/mapwcs20.c:483-528 | the value is cut at the first '(': the head splits at its first ',' into axis and CRS, and the rest, with one trailing ')' removed, splits at its first ',' into minimum and maximum |
| Wcs20.SubsetTextSplits | mapserver/mapwcs20.c:483-528 | the text "axis[,crs](min[,max])" cuts back into exactly its axis, CRS, minimum and maximum |
| Wcs20.SubsetRoundTrip | mapserver/mapwcs20.c:361-528 | a SUBSET value written from an axis, an optional CRS and integer bounds parses back to the slice or trim it describes |
| Wcs20.SubsetOfBounds | mapserver/mapwcs20.c:361-473 | integer bounds as text, increasing when both are given, give the subset they describe |
| Wcs20.SplitParen | mapserver/mapwcs20.c:537-575 | a SIZE or RESOLUTION value without '(' or without ')' is refused, and the axis name never exceeds the 499 characters its buffer holds |
| Wcs20.ParseSize | mapserver/mapwcs20.c:537-575 | a size is the text before '(' and the completely read integer between the parentheses |
| Wcs20.ParseResolution | mapserver/mapwcs20.c:585-625 | a resolution is the text before '(' and the completely read double between the parentheses |
| Wcs20.SizeRoundTrip | mapserver/mapwcs20.c:537-575 | "axis(n)" reads back as the axis and n |
| Wcs20.ResolutionRoundTrip | mapserver/mapwcs20.c:585-625 | "axis(n)" reads back as the axis and n as a real |
| Wcs20Request.FindAxis | mapserver/mapwcs20.c:249-261 | the index found is the first axis whose name equals the name ignoring case, and none is found only when no axis has it |
| Wcs20Request.AxisIndex | mapserver/mapwcs20.c:264-276 | after the find-or-insert the axis list holds an axis with the requested name at the index returned |
| Wcs20Request.ParseRequest | mapserver/mapwcs20.c:1117-1338 | the loop over the parameters computes the fold of each parameter's effect over the parameters in order, stopping at the first error |
| Wcs20Request.RepeatedKeyFails | mapserver/mapwcs20.c:1125-1203 | a second VERSION, REQUEST, SERVICE or COVERAGEID parameter, in any case, makes parsing fail |
| Wcs20Request.RepeatedAxisFails | mapserver/mapwcs20.c:1223-1316 | two SIZE, two RESOLUTION or two SUBSET parameters that parse and name the same axis ignoring case make parsing fail (a size of 0 counts as no size) |
| Wcs20Request.PutFails | mapserver/mapwcs20.c:1223-1316 | with distinct axis names, a setting is refused exactly when the axis it names already carries a setting of its kind |
| Wcs20Request.PutTakes | mapserver/mapwcs20.c:1223-1316 | after an accepted setting, the axis it names carries a setting of its kind |
| Wcs20Request.AxesDistinct | mapserver/mapwcs20.c:249-276 | after a successful parse no two axes have the same name ignoring case |
| Wcs20Request.OnceText | mapserver/mapwcs20.c:1125-1154 | after a successful parse VERSION, REQUEST and SERVICE hold the value of the only parameter of their name, none when absent |
| Wcs20Request.OnceIds | mapserver/mapwcs20.c:1187-1203 | after a successful parse the coverage ids are the split of the only COVERAGEID value, none when absent |
| Wcs20Request.LastTextKept | mapserver/mapwcs20.c:1175-1222 | after a successful parse FORMAT, INTERPOLATION, OUTPUTCRS and UPDATESEQUENCE hold the value of the last parameter of their name |
| Wcs20Request.ListsCollected | mapserver/mapwcs20.c:1155-1327 | after a successful parse ACCEPTVERSIONS, SECTIONS and RANGESUBSET hold the split items of all their parameters, in order |
| Wcs20Request.MultipartSticks | mapserver/mapwcs20.c:1208-1214 | after a successful parse multipart output is asked for exactly when some MEDIATYPE is "multipart/mixed" ignoring case |
| Wcs20Request.UnknownCollected | mapserver/mapwcs20.c:1328-1338 | after a successful parse the invalid parameters are the unknown names other than MAP, in order |
| Wcs20Coverage.FindAxesSucceeds | mapserver/mapwcs20.c:1355-1431 | the axes are accepted exactly when every subset is a trim over numbers, every axis name spells an accepted axis ignoring case, and no two axes spell the same accepted axis |
| Wcs20Coverage.FindAxesSlots | mapserver/mapwcs20.c:1387-1410 | each accepted axis receives the request axis that spells it, and stays empty when none does |
| Wcs20Coverage.FinalizeClaims | mapserver/mapwcs20.c:3034-3064 | finalisation reads the request axes spelling x and y, and fails whenever the axes are not accepted |
| Wcs20Coverage.FrameOf | mapserver/mapwcs20.c:3066-3129 | the width and height are the x and y sizes, and the resolutions the x and y resolutions |
| Wcs20Coverage.FrameCrs | mapserver/mapwcs20.c:3074-3129 | the subset CRS agrees ignoring case with every CRS the x and y subsets name, and is "imageCRS" when they name none |
| Wcs20Coverage.FrameCrsConflict | mapserver/mapwcs20.c:3092-3107 | an x subset with a CRS against a y subset with a different or no CRS makes finalisation fail |
| Wcs20Coverage.FrameUnits | mapserver/mapwcs20.c:3079-3118 | the units of the resolution are the x axis's when given, agree with the y axis's when given, and are unset when neither gives one |
| Wcs20Coverage.FrameExtent | mapserver/mapwcs20.c:3068-3091 | each side of the bounding box comes from the matching bound of the x or y subset, and with subsets as parsed the box's sides increase |
| Wcs20Coverage.DefaultBandsAll | mapserver/mapwcs20.c:3150-3161 | without a range subset, and up to 99,999,999 bands, the list is "1,2,…,numbands" |
| Wcs20Coverage.BandTokenInteger | mapserver/mapwcs20.c:3191-3199 | an integer entry is passed on as that integer |
| Wcs20Coverage.BandTokenName | mapserver/mapwcs20.c:3201-3210 | an entry naming a band in rangeset_axes gives 1 + its first position ignoring case |
| Wcs20Coverage.GetBandsRefuses | mapserver/mapwcs20.c:3212-3214 | an entry that is neither an integer nor a band name refuses the range subset |
| Wcs20Coverage.GetBandsServes | mapserver/mapwcs20.c:3163-3216 | a range subset is served exactly when every entry is an integer or a band name |
| Wcs20Coverage.GetBandsLists | mapserver/mapwcs20.c:3163-3216 | a served range subset gives one band number per entry, in order, joined by commas |
| Wcs20Coverage.GetBandsAsWrittenAgrees | mapserver/mapwcs20.c:3163-3216 | while every band number has at most three characters the source's buffer of four characters per entry builds the intended list |
| Wcs20Coverage.GetBandsAsWrittenTruncates | mapserver/mapwcs20.c:3164-3197 | RANGESUBSET=1000 gives "100" as written and "1000" as intended |
| Wms.LayersRefusedExactly | mapserver/mapwms.c:605-657 | for a request with one LAYERS parameter, the GetMap request is refused with LayerNotDefined exactly when some comma-separated LAYERS name selects no layer (by layer name, map name or group, case-insensitively) |
| Wms.StatusesFollowRequest | mapserver/mapwms.c:619-645 | after LAYERS a layer is ON exactly when some requested name selects it, and stays DEFAULT exactly when it was DEFAULT and no name selects it |
| Wms.SelectLayersPermutes | mapserver/mapwms.c:617-654 | with each layer placed once, the drawing order holds every layer index exactly once: DEFAULT layers, then the requested layers, then the ones left off |
| Wms.SelectLayersAsWrittenAgrees | mapserver/mapwms.c:619-654 | when no DEFAULT layer is requested and no layer is selected by two names, the loop as written gives the same statuses, order and counters as the corrected one |
| Wms.SelectLayersAsWrittenRepeats | mapserver/mapwms.c:619-645 | a DEFAULT layer requested by name is put in the order twice as written ([0, 0] for one layer), once with the correction |
| Wms.TwoNamesAsWritten | mapserver/mapwms.c:619-645 | with the first of two layers DEFAULT and two names selecting one layer each, the order as written is [0, 0, 1] and both layers are ON |
| Wms.TwoNamesCrowdOut | mapserver/mapwms.c:619-645 | in that case the first two entries of the order as written, the ones drawn, never name the requested layer 1, while the order with each layer placed once holds it and repeats nothing |
| Wms.SelectLayersAsWrittenCrowdsOut | mapserver/mapwms.c:619-645 | with "a" DEFAULT and "b" OFF, LAYERS=a,b gives [0, 0, 1] as written, so "b" is not among the first two entries, the ones drawn; with each layer placed once "b" is in the order and nothing repeats |
| Wms.ParseBbox | mapserver/mapwms.c:705-733 | a BBOX is accepted only with four comma-separated numbers and minx < maxx, miny < maxy; any other count is refused as a count error |
| Wms.BboxRoundTrip | mapserver/mapwms.c:705-733 | four integer coordinates written with commas read back exactly when ordered, and are refused as invalid values otherwise |
| Wms.CheckSize | mapserver/mapwms.c:889-900 | the image size passes exactly when both dimensions lie in 1..maxsize; a refused size is reset to 400 by 300 |
| Wms.SizeFromText | mapserver/mapwms.c:734-739 | WIDTH and HEIGHT written in decimal are read back by atoi and pass the size check exactly when in 1..maxsize |
| Wms.BgColor | mapserver/mapwms.c:761-767 | BGCOLOR is read as a base-16 number and each colour component lies in 0..255 |
| Wms.ComponentsRoundTrip | mapserver/mapwms.c:761-767 | packing red, green and blue as 0xRRGGBB and taking the value apart gives the three components back |
| Wms.ComponentsPack | mapserver/mapwms.c:761-767 | for a 24-bit value the components recombine to the value |
| Wms.StylesAccepted | mapserver/mapwms.c:1003-1021 | a non-empty STYLES is accepted exactly when every comma-separated style is empty or "default" in any case |
| Wms.DefaultStylesAccepted | mapserver/mapwms.c:1003-1021 | STYLES=default,...,default is accepted for any number of entries |
| Wms.CheckGetMapAccepts | mapserver/mapwms.c:818-823 | for a request with one LAYERS parameter, the layer, size and style checks after the parameter loop pass exactly when every LAYERS name selects a layer, the size is in range and every style is a default one |
| Wms.PassCounts | mapserver/mapwms.c:630-650 | one LAYERS parameter counts an invalid name exactly when one of its names selects no layer, and a valid one whenever none misses |
| Wms.TotalInvalid | mapserver/mapwms.c:577-657 | the counters are set once before the parameter loop and only grow, so the invalid total is positive exactly when some LAYERS parameter counted a miss |
| Wms.LayersRefusedAll | mapserver/mapwms.c:577-823 | over a request with any number of LAYERS parameters, the layer check refuses exactly when there is none, or some name of some LAYERS parameter selects no layer; a later good parameter does not undo an earlier bad one |
| Wms.CheckGetMapAcceptsAll | mapserver/mapwms.c:577-823 | with any number of LAYERS parameters, the layer, size and style checks pass exactly when there is at least one, every name in each selects a layer, the size is in range and every style is a default one |
| Wms.NestedGroups | mapserver/mapwms.c:1491-1532 | a layer gets nested groups only from a non-empty "layer_group" starting with '/', and refuses one set together with GROUP |
| Wms.NestedGroupsRoundTrip | mapserver/mapwms.c:1503-1528 | a "layer_group" written as /a/b/c yields the path [a, b, c] |
| Wms.NestedGroupsConflict | mapserver/mapwms.c:1507-1513 | a layer with both GROUP and "layer_group" is refused |
| Wms.IsSubGroup | mapserver/mapwms.c:1534-1550 | (corrected) other is a sub-group at a level exactly when it is deeper than that level and each of its groups up to the level starts with the current group |
| Wms.IsSubGroupAsWrittenAgrees | mapserver/mapwms.c:1534-1550 | when the other path is not exactly `level` groups deep, the test as written answers as the corrected one without reading out of bounds |
| Wms.IsSubGroupAsWrittenOverruns | mapserver/mapwms.c:1537-1548 | for current [a, b] at level 1 and other [a] the loop as written reads other[1], past the end |
| Wms.IsSubGroupReflexive | mapserver/mapwms.c:1534-1550 | a group path is a sub-group of itself at each of its levels |
| Wms.IsSubGroupShallower | mapserver/mapwms.c:1534-1550 | a sub-group at one level is a sub-group at every shallower level |
| Wms.CapabilitiesVersion | mapserver/mapwms.c:1632-1656 | the capabilities version is always one of 1.0.0, 1.0.7, 1.1.0, 1.1.1 |
| Wms.CapabilitiesVersionHighest | mapserver/mapwms.c:1632-1656 | from 1.0.0 upward the answer is the highest supported version not above the request; below that 1.0.0; with none given 1.1.1 |
| Wms.CapabilitiesVersionIdempotent | mapserver/mapwms.c:1632-1656 | a supported version is answered with itself, so choosing again changes nothing |
| Wms.CapabilitiesVersionMonotone | mapserver/mapwms.c:1632-1656 | asking for a later version never gives an earlier document |
| Template.FindTagFirst | mapserver/maptemplate.c:361-389 | the search finds the first `[tag ` when there is one, otherwise the first `[tag]`, and nothing exactly when neither occurs |
| Template.QuotesRoundTrip | mapserver/maptemplate.c:443-470 | a quoted value free of `"` survives the space-to-quote masking and its undoing unchanged |
| Template.UnquoteAsWrittenAgrees | mapserver/maptemplate.c:434-460 | whenever every quote has a partner, the quote loop as written gives the corrected loop's text |
| Template.GetTagArgsAsWrittenAgrees | mapserver/maptemplate.c:395-493 | whenever getTagArgs as written returns, its table is the corrected one |
| Template.ArgEntryOfPair | mapserver/maptemplate.c:472-482 | a word `k=v` is read as the entry (k, v) |
| Template.InsertWordsFind | mapserver/maptemplate.c:463-485 | the entry of a word whose key no other word repeats is found in the table the words build |
| Template.InsertWordsMiss | mapserver/maptemplate.c:463-485 | a key no word names keeps its earlier lookup |
| Template.TagArgsRoundTrip | mapserver/maptemplate.c:395-493 | `[tag k1=v1 k2=v2 ...]` is parsed without a crash and every key maps to its value |
| Template.TagArgsAbsent | mapserver/maptemplate.c:395-493 | a non-empty name that is none of the keys is not in the table |
| Template.QuotedValueKeepsSpaces | mapserver/maptemplate.c:431-470 | a double-quoted value keeps its spaces: `[tag k="v w"]` maps k to `v w` |
| Template.UnmatchedQuoteAsWritten | mapserver/maptemplate.c:437-441 | as written, an opening quote without a partner makes the loop search from a NULL pointer; the corrected reading maps k to the rest of the word with the quote as a space |
| Template.InlineTagEnclosed | mapserver/maptemplate.c:501-579 | the text between `[tag args]` and the first `[/tag` is returned when no other `[` comes between them |
| Template.InlineTagAsWrittenAgrees | mapserver/maptemplate.c:528-548 | whenever the nesting loop as written ends, the corrected reading gives the same result; where it never ends the corrected reading finds no text |
| Template.InlineTagAsWrittenHangs | mapserver/maptemplate.c:528-548 | on `[x][x]a[/x]` the nesting loop keeps repeating the same searches with one level open |
| Template.NestStuck | mapserver/maptemplate.c:528-548 | with levels open and no end tag left, neither step applies and the loop is stuck |
| Template.Decide | mapserver/maptemplate.c:655-728 | an [if] test leaves its block in place only when the variable is unset (for `isnull` and `isset` only before the last pass), and fails exactly on an operator other than eq, neq, isnull and isset |
| Template.NeqNegatesEq | mapserver/maptemplate.c:676-697 | with the variable set, `neq` keeps the then-text exactly when `eq` empties the block and vice versa |
| Template.IsNullNegatesIsSet | mapserver/maptemplate.c:698-723 | `isnull` and `isset` decide oppositely, and both wait for the last pass on an unset variable |
| Template.TagRunNoTag | mapserver/maptemplate.c:610-612 | a text without the tag comes back unchanged |
| Template.TagRunKeeps | mapserver/maptemplate.c:745-748 | a rule that leaves every tag in place leaves the text unchanged, the search moving one past each tag |
| Template.TagRunMoreFuel | mapserver/maptemplate.c:612-749 | a run that ended within the visit bound ends the same way with a larger bound |
| Template.TagRunOneBlock | mapserver/maptemplate.c:612-749 | a text that is one tag's block gives the block's replacement, itself when the rule leaves it, or a failure |
| Template.IfStepOfBlock | mapserver/maptemplate.c:641-734 | the [if] block at the start is decided on its name, value and operator arguments and the variable's entry |
| Template.IfBlockProcessed | mapserver/maptemplate.c:590-752 | a lone named block `[if k1=v1 ...]a[/if]` becomes `a`, nothing, stays, or fails as its operator, value and the variable decide |
| Template.IfBlockUnnamed | mapserver/maptemplate.c:664-748 | a lone block that names no variable is left as it is |
| Template.MetadataStepWith | mapserver/maptemplate.c:955-976 | a tag is replaced exactly when it names a key the table holds, by that key's value, and the search resumes in place exactly when the value is empty; it never fails |
| Template.MetadataStepAsWritten | mapserver/maptemplate.c:955-986 | as written the search always resumes one past the tag's position |
| Template.MetadataTagProcessed | mapserver/maptemplate.c:931-990 | `[metadata name=k]rest` becomes the value of k followed by rest when the table holds k, and is unchanged otherwise |
| Template.MetadataBlockProcessed | mapserver/maptemplate.c:960-976 | a lone metadata tag naming a held key becomes that key's value |
| Template.ProcessMetadataEmptyTable | mapserver/maptemplate.c:955-960 | with no metadata set every tag stays and the text is unchanged |
| Template.MetadataEmptyValueAsWritten | mapserver/maptemplate.c:982-984 | as written, a tag whose value is empty is removed and the search goes on one past its position |
| Template.MetadataAsWrittenSkipsNext | mapserver/maptemplate.c:958-986 | as written, a second tag that slides into the place of an emptied first tag is never processed |
| Template.MetadataValueTagStays | mapserver/maptemplate.c:963-986 | a tag whose value is another [metadata] tag leaves that tag in the result, unprocessed even when it names a key with a value |
| Template.MetadataReplacesNext | mapserver/maptemplate.c:931-990 | resuming at the emptied position, the second tag is replaced by its value too |
| LegendOrder.SortByOrder | mapserver/maptemplate.c:238-273 | a map without a layer order keeps none; an existing order keeps its length and is left unchanged unless the word is "DESCENDING" in any case |
| LegendOrder.SortByOrderPermutes | mapserver/maptemplate.c:257-268 | sorting by order only rearranges the layers |
| LegendOrder.SortByOrderDescending | mapserver/maptemplate.c:263-267 | in descending order position k holds the layer that stood at position n−1−k |
| LegendOrder.SortByOrderTwice | mapserver/maptemplate.c:257-268 | sorting twice with the same word gives the original order back |
| LegendOrder.InitialOrder | mapserver/maptemplate.c:295-321 | the starting order is the existing order reversed (the same layers), or n−1, …, 0 when the map has none |
| LegendOrder.BubblePass | mapserver/maptemplate.c:332-348 | one pass of the inner loop rearranges only the positions it visits, leaves layers without a number where they were, and with every layer numbered carries the largest number of the range to its end |
| LegendOrder.SortLayerByMetadata | mapserver/maptemplate.c:280-352 | the result is a permutation of the starting order, equal to it without a key; with a key, layers lacking it keep their places, and when every layer has a number the order is ascending by number |
| LegendOrder.PassKeepsOrder | mapserver/maptemplate.c:332-348 | after each outer pass the tail of the order is sorted and holds numbers no smaller than any before it |
| MapIO.InstallHandlers | mapserver/mapio.c:178-205 | each standard channel takes the handler given for it, and a channel given none gets the default handler back |
| MapIO.ReadOrWrite | mapserver/mapio.c:211-232 | exactly one of a read and a write reaches a context's callback; the other is refused and returns 0 |
| MapIO.BufferWrite | mapserver/mapio.c:790-824 | the bytes are appended after the existing data, earlier bytes unchanged, the count returned, and the grown allocation still holds the data |
| MapIO.BufferWritesConcat | mapserver/mapio.c:790-824 | two writes in a row capture the same bytes as one write of both |
| MapIO.BufferRead | mapserver/mapio.c:830-838 | reading from a capture buffer always yields 0 bytes |
| MapIO.WriteCaptured | mapserver/mapio.c:224-232 | a write through a read channel leaves the buffer alone and returns 0; through a write channel it is a buffer append |
| MapIO.PrintfCaptured | mapserver/mapio.c:244-269 | text of 8000 characters or more, or a formatting error, returns -1 and writes nothing; shorter text is written through the stdout handler |
| MapIO.PrintfAppends | mapserver/mapio.c:244-269 | printing text that fits into a captured stdout appends exactly that text and returns its length |
| MapIO.StripHeader | mapserver/mapio.c:731-733 | no header is reported exactly when the data is shorter than 14 bytes or does not start with "Content-type: " in any case |
| MapIO.StripHeaderParts | mapserver/mapio.c:738-783 | a stripped buffer was the 14-byte header name, the content type, a newline, one line of dropped bytes, a newline and the remaining data, with no newline in the content type |
| MapIO.StripHeaderOfLayout | mapserver/mapio.c:738-783 | conversely, such a layout is stripped to exactly its content type and remaining data |
| MapIO.StripWithoutNewlines | mapserver/mapio.c:741-764 | a header without its first, or without its second, newline is reported corrupt |
| MapIO.StripStdout | mapserver/mapio.c:714-783 | a handler that is not a write channel labelled "buffer" fails; every failure leaves the handler unchanged; success keeps only the data after the header, with the allocation unchanged |
| MapIO.StripShortens | mapserver/mapio.c:776-781 | the data shrinks by exactly the header, content type, dropped line and both newlines |
| MapIO.GetHandler | mapserver/mapio.c:149-172 | stdin, NULL and "stdin" give the stdin handler, stdout and "stdout" the stdout handler, stderr and "stderr" the stderr handler, and any other file none |
| MapIO.InstallThenWrite | mapserver/mapio.c:178-232 | after installation the stdout handler is the one installed for it, or the default, and a write through it reaches its callback exactly when it is a write channel |
| MapIO.InstallThenRead | mapserver/mapio.c:149-218 | after installation the handler found for NULL is the stdin one installed, and a read through it reaches its callback exactly when it is not a write channel |
| MapIO.InstallThenCapture | mapserver/mapio.c:178-205 | after installing a capture buffer on stdout, a write to "stdout" lands in that buffer after the bytes it held and returns the count |
| MapFile.Hex2IntOfDigits | mapserver/mapfile.c:207-215 | two hexadecimal digits, in either case, read as the byte 16·hi + lo, in 0..255 |
| MapFile.Hex2IntRoundTrip | mapserver/mapfile.c:207-215 | hex2int undoes writing a byte as two upper- or lower-case hexadecimal digits |
| MapFile.NibbleDoesNotValidate | mapserver/mapfile.c:207-215 | a character outside the hexadecimal digits is not rejected ('G' reads as 16, "GG" as 272) |
| MapFile.LoadHexColor | mapserver/mapfile.c:217-236 | the hexadecimal colour succeeds exactly for a seven-character token starting with '#', and each component is hex2int of its two digits |
| MapFile.LoadHexColorRoundTrip | mapserver/mapfile.c:220-233 | every colour with components in 0..255 written as "#RRGGBB" loads back unchanged |
| MapFile.LoadHexColorBytes | mapserver/mapfile.c:220-233 | a "#RRGGBB" token of hexadecimal digits yields components in 0..255 |
| MapFile.LayerIndex | mapserver/mapfile.c:191-204 | -1 for a NULL name or a name no layer carries; otherwise the first layer whose name equals it exactly, unnamed layers skipped |
| MapFile.SymbolIndex | mapserver/mapfile.c:173-186 | -1 without a symbol set or a name; the first symbol from index 1 whose name matches ignoring case; otherwise whatever msAddImageSymbol returns |
| MapFile.InsertFeature | mapserver/mapfile.c:419-451 | the list stays well linked (each node points at the next, the head's tail pointer at the last node) and gains the shape at its end |
| MapFile.InsertFeatureWalk | mapserver/mapfile.c:419-451 | following the next pointers from the head after an insert visits the shapes visited before, then the new one |
| MapFile.ProjectionArgs | mapserver/mapfile.c:889-920 | a '+' definition gives arguments free of '+' and white space; an "AUTO:" definition (any case) stays one argument; any other gives arguments free of ',' |
| MapFile.ProjectionArgsPlus | mapserver/mapfile.c:889-903 | "+a+b+c" splits back into a, b, c when these are free of '+' and white space and the inner ones are not empty |
| MapFile.ProjectionArgsComma | mapserver/mapfile.c:916-920 | "a,b,c" splits back into a, b, c when these are free of ',' and the text starts with neither '+' nor "AUTO:" |
| MapFile.WriteExpression | mapserver/mapfile.c:1359-1372 | text is written only for regular expressions, strings and logical expressions, as the expression wrapped in one delimiter on each side |
| MapFile.WriteExpressionRoundTrip | mapserver/mapfile.c:1359-1372 | reading the written form back by its delimiters recovers the type and the text |
| MapFile.GetConfigOption | mapserver/mapfile.c:4589-4593 | an option is found exactly when the table holds an entry for the key |
| MapFile.SetConfigOption | mapserver/mapfile.c:4595-4606 | a PROJ_LIB key in any case also sets PROJ's search path to the value; any other key leaves it unchanged |
| MapFile.SetConfigOptionFound | mapserver/mapfile.c:4595-4606 | after setting, the option reads back the new value |
| MapFile.SetConfigOptionOther | mapserver/mapfile.c:4595-4606 | setting one option leaves every other option as it was |
| MapFile.SetConfigOptionOnce | mapserver/mapfile.c:4602-4605 | a table holding each key at most once keeps doing so, and afterwards holds the set key exactly once |
| MapUtil.GetRgbColor | mapserver/maputil.c:200-211 | status 0 exactly for an index in 1..numcolors, and then the components of palette entry i-1; otherwise status 1 and -1 for every component |
| MapUtil.EvalExpression | mapserver/maputil.c:331-419 | a NULL expression is true; a string expression holds exactly when the item index names an item equal to the text (ignoring case when insensitive); a regular expression needs a valid index and a match; a logical expression is the parser's verdict; any other type is false |
| MapUtil.InsensitiveWeaker | mapserver/maputil.c:338-355 | a string that matches exactly also matches when the insensitive flag is set |
| MapUtil.StringIgnoresOutside | mapserver/maputil.c:338-355 | a string expression's outcome does not depend on the expression parser or the regular-expression engine |
| MapUtil.FirstClassFrom | mapserver/maputil.c:448-461 | the search returns the first class from i on that is in scale, not deleted and whose expression holds, or -1 when there is none |
| MapUtil.ShapeGetClass | mapserver/maputil.c:429-462 | an INLINE layer keeps the shape's class index exactly when it names a class whose scale range admits the scale; any other layer gets the first selectable class, -1 exactly when none is |
| MapUtil.NoExpressionMatches | mapserver/maputil.c:448-461 | a class without expression, not deleted and in scale, bounds the class chosen from above |
| MapUtil.ConstrainExtentAsWritten | mapserver/maputil.c:535-562 | the rectangle keeps its width and height, and an axis along which it overlaps the bounds is left unchanged |
| MapUtil.ConstrainExtentAsWrittenMovesAway | mapserver/maputil.c:551-559 | as written, a rectangle of positive height wholly below or above the bounds ends further from them along y |
| MapUtil.ConstrainExtentAsWrittenExample | mapserver/maputil.c:551-559 | bounds (0,0)-(10,10), rectangle (0,-5)-(10,-1) and overlay 0.5 give (0,-7)-(10,-3) |
| MapUtil.ConstrainExtent | mapserver/maputil.c:535-562 | the corrected constraint keeps the size and leaves overlapping axes unchanged |
| MapUtil.ConstrainExtentApproaches | mapserver/maputil.c:535-562 | with an overlay in (0, 1], a rectangle outside the bounds along an axis ends nearer to them along both axes |
| MapUtil.IndicesFrom | mapserver/maputil.c:726-735 | the increasing indices from i on of exactly the layers whose group equals the name |
| MapUtil.LayersIndexByGroup | mapserver/maputil.c:713-750 | NULL exactly for a NULL name or a group no layer has; otherwise the increasing indices of exactly the layers in that group |
| MapUtil.FirstSeenContents | mapserver/maputil.c:1071-1128 | the group list has no repeats and holds exactly the groups that occur |
| MapUtil.GetAllGroupNames | mapserver/maputil.c:1071-1128 | the loop lists each group of a non-deleted layer once, in layer order, and a missing layer order becomes 0..n-1 |
| MapUtil.AllGroupNamesContents | mapserver/maputil.c:1071-1128 | the listed groups are distinct and are exactly the groups of the non-deleted layers the order visits |
| MapUtil.AllGroupNamesDefault | mapserver/maputil.c:1080-1088 | without a layer order the listed groups are exactly those of all non-deleted layers |
| MapUtil.MaybeAllocateStyle | mapserver/maputil.c:1514-1537 | a NULL class or an index outside 0..numstyles fails and changes nothing; success fills the slot and raises numstyles by one exactly when the slot was empty |
| MapUtil.MaybeAllocateStyleIdempotent | mapserver/maputil.c:1514-1537 | after a successful call, a second call for the same slot succeeds and changes nothing |
| MapProject.ArgsDifferFrom | mapserver/mapproject.c:743-747 | the comparison loop reports a difference exactly when some argument from i on differs |
| MapProject.ProjectionsDiffer | mapserver/mapproject.c:727-750 | never when either projection has no arguments; otherwise exactly when the argument lists differ or either projection needs a geotransform |
| MapProject.ProjectionsDifferIrreflexive | mapserver/mapproject.c:727-750 | a projection without geotransform never differs from itself |
| MapProject.ProjectionsDifferGeotransform | mapserver/mapproject.c:740-742 | a projection with arguments that needs a geotransform differs even from itself |
| MapProject.ProjectionsDifferSymmetric | mapserver/mapproject.c:727-750 | the comparison gives the same answer with its operands swapped |
| MapProject.PlugJoins | mapserver/mapproject.c:944-963 | the plugging loop appends the non-empty arguments, each with a leading '+', separated by single spaces |
| MapProject.GetProjectionStringJoins | mapserver/mapproject.c:922-966 | the projection string is the non-empty arguments, each with a leading '+' added unless present, joined by single spaces |
| MapProject.GetProjectionStringRoundTrip | mapserver/mapproject.c:922-966 | loading the projection string through the '+' branch of msLoadProjectionString gives back the arguments when they are non-empty and free of '+' and white space |
| MapProject.ProjFinder | mapserver/mapproject.c:865-881 | NULL for a NULL name; the name itself without PROJ_LIB; otherwise PROJ_LIB, '/' and the name, so the result always ends with the name |
| MapProject.ProjFinderAfterSetConfig | mapserver/mapproject.c:865-881 | after PROJ_LIB is set in any case through msSetConfigOption, a file is resolved under that directory |
| MapRaster.ClassVerdict | mapserver/mapraster.c:71-115 | a class without expression matches; a string class matches exactly the colour written "r g b" or the pen written in decimal, and never fails; a type the switch does not name never matches |
| MapRaster.GetClassFrom | mapserver/mapraster.c:70-117 | the result is the first class that matches with every earlier class not matching, or -1 exactly when no class matches or one fails before any matches |
| MapRaster.GetClass | mapserver/mapraster.c:60-118 | a single class without expression is taken without looking at the colour; otherwise a NULL colour gives -1, and a class chosen is the first that matches |
| MapRaster.IntToDecimalInjective | mapserver/mapraster.c:74-77 | different numbers are written differently by "%d" |
| MapRaster.RgbTextInjective | mapserver/mapraster.c:74-75 | the "r g b" text determines the three components |
| MapRaster.StringClassMatchesComponents | mapserver/mapraster.c:73-77 | a string class written "r g b" matches exactly the colours with those components, whatever their pen |
| MapRaster.Perturb | mapserver/mapraster.c:139-160 | with a transparent output format the requested colour never equals the background afterwards, greys stay grey, and any other request is unchanged |
| MapRaster.Distance | mapserver/mapraster.c:180-196 | the squared distance is never negative and is zero exactly for equal colours |
| MapRaster.LastOpen | mapserver/mapraster.c:168-171 | the last open slot before n, or -1 when none is open |
| MapRaster.Visit | mapserver/mapraster.c:166-203 | one slot of the search keeps its invariant: no exact slot so far, the last open slot, and the first nearest candidate with its distance |
| MapRaster.Search | mapserver/mapraster.c:166-203 | the search returns the first in-use, non-background slot holding the colour, or else the last open slot and the first candidate at least distance below the starting bound |
| MapRaster.AddColorFrom | mapserver/mapraster.c:125-219 | an exact match is returned with the palette unchanged; otherwise the last open slot is filled, or a slot is appended below gdMaxColors, or the nearest candidate is returned with the palette unchanged |
| MapRaster.AddColorGDAsWritten | mapserver/mapraster.c:125-219 | with a full palette and no exact match, the result is the nearest candidate strictly below 3·255², or -1 when none is |
| MapRaster.AddColorGDAsWrittenMissesFarthest | mapserver/mapraster.c:131 | a full palette of white asked for black returns -1 instead of a palette index |
| MapRaster.AddColorGD | mapserver/mapraster.c:125-219 | the palette never grows past gdMaxColors, a returned slot is in use and never the background of a transparent image, slots other than the returned one are unchanged, and -1 comes back only when no slot can be used |
| MapRasterQuery.AddResult | mapserver/maprasterquery.c:111-135 | the member goes at the end, and the cache grows by one increment exactly when every slot was taken |
| MapRasterQuery.AddAll | mapserver/maprasterquery.c:111-135 | adding members in turn appends them in order and keeps every result in an allocated slot |
| MapRasterQuery.AddAllFromEmpty | mapserver/maprasterquery.c:115-125 | from a cache sized to its results rounded up, the cache ends sized to the new count rounded up to the increment |
| MapRasterQuery.Initialize | mapserver/maprasterquery.c:185-213 | an existing record is kept; otherwise a fresh record has no band count, no range mode, no references and the default maximum of one million without the processing option |
| MapRasterQuery.InitializeHardMax | mapserver/maprasterquery.c:206-212 | a RASTER_QUERY_MAX_RESULT written in decimal becomes the record's maximum |
| MapRasterQuery.InitializeIdempotent | mapserver/maprasterquery.c:190-191 | initializing twice is initializing once |
| MapRasterQuery.Clamp | mapserver/maprasterquery.c:354-360 | a value is clamped to 0..255 and then truncated: below 0 gives 0, above 255 gives 255, in between its integer part |
| MapRasterQuery.ClampByte | mapserver/maprasterquery.c:354-360 | a byte value passes the clamp unchanged |
| MapRasterQuery.Read | mapserver/maprasterquery.c:311-362 | a classified pixel is no-data exactly when no class takes it and otherwise gets its class's colour; a colour-table pixel is no-data exactly when the table has no entry or a transparent one; otherwise the colour is clamped from the first three bands, or grey from the first |
| MapRasterQuery.Grow | mapserver/maprasterquery.c:233-306 | the arrays hold one more pixel after the step and never shrink |
| MapRasterQuery.AddPixel | mapserver/maprasterquery.c:219-395 | at the maximum nothing changes; otherwise earlier pixels are kept, and a pixel with data is recorded with its location and values and gets one result member whose shape index is its position |
| MapRasterQuery.AddPixelWithinHardMax | mapserver/maprasterquery.c:226-227 | the count of results never passes the maximum |
| MapRasterQuery.AddPixelIndexed | mapserver/maprasterquery.c:390-394 | the result cache and the pixel record stay in step: shape index k is the k-th recorded pixel |
| MapRasterQuery.AddPixelClassesWithin | mapserver/maprasterquery.c:311-324 | every recorded class is one of the layer's classes |
| MapRasterQuery.Open | mapserver/maprasterquery.c:942-953 | opening succeeds exactly when a record exists, and adds one reference to it |
| MapRasterQuery.Close | mapserver/maprasterquery.c:988-1000 | closing drops one reference and frees the record when the count falls below zero |
| MapRasterQuery.OpenClose | mapserver/maprasterquery.c:942-1000 | closing what was opened gives back the record unchanged |
| MapRasterQuery.InitializedLifetime | mapserver/maprasterquery.c:942-1000 | a fresh record survives one open and close, and a second close frees it |
| MapRasterQuery.WhichShapes | mapserver/maprasterquery.c:973-982 | the shape cursor goes back to the start and nothing else changes |
| MapRasterQuery.ValueNames | mapserver/maprasterquery.c:1140-1145 | band i is named `value_i`, for every band in order |
| MapRasterQuery.ItemNames | mapserver/maprasterquery.c:1126-1160 | the items are x, y, one `value_i` per band, `values`, `class` exactly for a classified layer, then red, green and blue |
| MapRasterQuery.ItemsAsWritten | mapserver/maprasterquery.c:1130-1157 | the ten-slot array holds the names exactly when there are at most ten of them |
| MapRasterQuery.ItemsAsWrittenOverflow | mapserver/maprasterquery.c:1130-1157 | a five-band raster has at least eleven item names, which overrun the ten slots |
| MapRasterQuery.ItemsAsWrittenOverflowClassified | mapserver/maprasterquery.c:1130-1157 | a four-band raster in a classified layer overruns them too |
| MapRasterQuery.GetItems | mapserver/maprasterquery.c:1126-1160 | with the array sized to the names, the items are exactly the names |
| MapRasterQuery.FlatAt | mapserver/maprasterquery.c:383-385 | value i of pixel k sits at k·bands + i of the flat value array |
| MapRasterQuery.ValueItemAsWrittenReadsNeighbour | mapserver/maprasterquery.c:1080-1085 | as written, `value_1` of a one-band pixel reads the next pixel's value |
| MapRasterQuery.ValueItem | mapserver/maprasterquery.c:1080-1085 | the corrected lookup gives a value exactly for a band of the pixel, and that band's value |
| MapRasterQuery.ValueItemAgrees | mapserver/maprasterquery.c:1080-1085 | within the pixel's bands the unchecked lookup reads the right value |
| MapRasterQuery.GetShape | mapserver/maprasterquery.c:1025-1113 | an out-of-range record fails; otherwise every requested item gets its value |
| MapRasterQuery.GetItemsValueRoundTrip | mapserver/maprasterquery.c:1080-1144 | every band item GetItems lists reads that band of the pixel |
| MapRasterQuery.NextShape | mapserver/maprasterquery.c:1006-1019 | the cursor yields the shape at its position and moves on by one, and is done exactly when it is outside the results |
| MapRasterQuery.DrainFrom | mapserver/maprasterquery.c:1006-1019 | from a cursor inside the results every later record comes once, in order |
| MapRasterQuery.WhichShapesVisitsAll | mapserver/maprasterquery.c:973-1019 | after a reset the cursor visits every result once, in order |
| MapRendering.Clamp | mapserver/maprendering.c:15-16 | `MS_MIN(MS_MAX(v, lo), hi)` lies in [lo, hi] when lo ≤ hi and leaves a value already there unchanged |
| MapRendering.ComputeLabelStyle | mapserver/maprendering.c:4-36 | the style is computed exactly when the colour is valid, the size is not −1 and a TrueType label names a font its fontset holds; the rotation is the angle in radians; a bitmap label keeps its size, a TrueType label's scaled size is clamped to [minsize, maxsize] |
| MapRendering.LabelStyleUnscaled | mapserver/maprendering.c:12-16 | an unscaled label within its size bounds keeps its size |
| MapRendering.Search | mapserver/maprendering.c:88-104 | the tile found matches every key and every colour the style sets, and is the first that does; none is found only when no tile matches |
| MapRendering.Fill | mapserver/maprendering.c:136-149 | the filled node matches the keys it was filled with and holds the new image |
| MapRendering.Add | mapserver/maprendering.c:107-150 | the new tile is the head; below capacity the count grows by one and the old tiles follow; at capacity the last tile is dropped and the count stays, so the cache never exceeds its capacity |
| MapRendering.SearchAfterAdd | mapserver/maprendering.c:88-149 | a search with the keys just added finds the new head |
| MapRendering.AddAll | mapserver/maprendering.c:107-150 | the cache stays within its capacity over any run of additions |
| MapRendering.AddAllKeepsNewest | mapserver/maprendering.c:107-150 | after any run of additions the cache holds the newest entries, newest first, as many as the capacity allows |
| MapRendering.AddAllSnoc | mapserver/maprendering.c:107-150 | the run of additions is the additions made one after another |
| MapRendering.Side | mapserver/maprendering.c:157 | the default tile side is the larger of the symbol's sizes, truncated to an integer |
| MapRendering.GetTile | mapserver/maprendering.c:152-228 | a cached tile with the same keys is returned and the cache is unchanged; on a miss the rendered tile is added once as the new head and returned, except that a pixmap that fails to load returns NULL and leaves the cache |
| MapRendering.GetTileTwice | mapserver/maprendering.c:152-228 | asking again for a tile just returned finds it in the cache without rendering |
| MapRendering.GetTileDefaultSize | mapserver/maprendering.c:156-158 | a width or height of −1 means a square of the symbol's default side |
| MapScript.GetLayer | mapserver/mapscript/php3/mapscript_i.c:73-78 | a layer is returned exactly for an index in [0, numlayers), and it is the layer at that index |
| MapScript.LineGet | mapserver/mapscript/php3/mapscript_i.c:755-760 | a point is returned exactly for an index in [0, numpoints), and it is the point at that index |
| MapScript.LineAddGet | mapserver/mapscript/php3/mapscript_i.c:762-781 | after adding, the new last point is the one added and every earlier point reads as before |
| MapScript.ShapeGet | mapserver/mapscript/php3/mapscript_i.c:808-813 | a line is returned exactly for an index in [0, numlines), and it is the line at that index |
| MapScript.Widen | mapserver/mapscript/php3/mapscript_i.c:832-835 | the widened rectangle holds the point, and a rectangle already holding it is unchanged |
| MapScript.WidenKeeps | mapserver/mapscript/php3/mapscript_i.c:832-835 | widening only grows the rectangle |
| MapScript.SetBounds | mapserver/mapscript/php3/mapscript_i.c:824-840 | the lines are kept and the bounds become their bounding box: every point lies inside it and each edge is a coordinate of some point |
| MapScript.BoundingBoxUnique | mapserver/mapscript/php3/mapscript_i.c:824-840 | there is only one such bounding box |
| MapScript.FindName | mapserver/mapscript/php3/mapscript_i.c:1251-1257 | the parameter found is the first whose name equals the given one ignoring case; none is found only when no name does |
| MapScript.GetName | mapserver/mapscript/php3/mapscript_i.c:1265-1272 | a name is returned exactly for an index in [0, NumParams), and it is that parameter's name |
| MapScript.GetValue | mapserver/mapscript/php3/mapscript_i.c:1274-1281 | a value is returned exactly for an index in [0, NumParams), and it is that parameter's value |
| MapScript.GetValueByName | mapserver/mapscript/php3/mapscript_i.c:1283-1292 | a value is returned exactly when some name matches ignoring case, and it is the value of the first such parameter |
| MapScript.SetParameterAsWritten | mapserver/mapscript/php3/mapscript_i.c:1247-1249 | the capacity error is registered exactly when the store is full |
| MapScript.SetParameterAsWrittenOverflows | mapserver/mapscript/php3/mapscript_i.c:1247-1262 | as written, a new name given to a full store is still appended, one past the arrays' end |
| MapScript.SetParameter | mapserver/mapscript/php3/mapscript_i.c:1243-1263 | a matching name has its value replaced in place with the count unchanged and nothing else touched; a new name is appended below capacity and refused at capacity; the store never outgrows its capacity |
| MapScript.SetParameterAgrees | mapserver/mapscript/php3/mapscript_i.c:1243-1263 | below capacity, or for a name already present, the corrected store and the one as written agree |
| MapScript.SetThenGet | mapserver/mapscript/php3/mapscript_i.c:1243-1292 | after storing a name, looking up any name equal to it ignoring case gives the value stored |
| MapScript.SetKeepsOthers | mapserver/mapscript/php3/mapscript_i.c:1243-1292 | storing one name leaves the lookup of every other name unchanged |

## Left out

- Template.TagLoop: a fuel bound limits the number of tags visited and a run that exhausts it ends as OutOfFuel; the source loops until no tag is left. TagLoopMoreFuel shows that more fuel never changes a finished result.
- Template.ProcessIf, Template.ProcessMetadata: both run on Template.TagLoop and share its fuel bound.
- Template.ProcessIf: an unbalanced nested [if], such as `[if name=a][if name=b]x[/if]`, makes the nesting loop at maptemplate.c:618-639 spin forever; the model reads the block as never closed, so a named block fails the step and an unnamed one is skipped.
- Template.IfStep: a NULL or stale end pointer in the source becomes a failed step here.
- HashTable.Lookup: maphash.c is not part of this model; MapServer's table compares keys ignoring case and hashes them, while the model compares keys exactly and keeps entries in insertion order.
- Atoi-based ranks (LegendOrder.Rank) do not model 32-bit wrap-around of atoi, because the C behaviour on overflow is undefined.
- MapIO: getHandler's lookup of non-standard FILE handles and fwrite to real files are I/O and are not modelled.
- MapIO.BufferWrite: allocation failure of realloc is not modelled.
- MapIO.PrintfCaptured: the vsnprintf formatting is a parameter, the already formatted text.
- LegendOrder.SortByOrder: strcasecmp with "DESCENDING" is modelled as LowerAll(how) == "descending".
- MapFile.LoadHexColor: only the "#RRGGBB" branch of loadColor is modelled; reading the three integers goes through the mapfile lexer, which is not part of this model, and the alpha reset of ALPHACOLOR_ENABLED builds is left out.
- MapFile.SymbolIndex: msAddImageSymbol loads an image file; its result is a parameter.
- MapFile.InsertFeature: malloc and msCopyShape failure (a NULL result) are not modelled; the shape is kept by value.
- MapFile.ProjectionArgs: msProcessProjection (pj_init) is PROJ's and is not modelled; the builds without USE_PROJ are not modelled.
- MapFile.SetConfigOption: msSetPROJ_LIB's installation of a file finder in PROJ is reduced to recording the path.
- MapUtil.EvalExpression: the logical-expression parser (with its item substitution) and the regular-expression engine are not modelled; their verdicts are parameters, and the number of items is the length of the item list.
- MapUtil.EvalExpression: an item index below -1 is excluded, since the C code would read outside the item array.
- MapUtil.MaybeAllocateStyle: a failed allocation of the style is not modelled; the slots are modelled as maputil.c uses them, as an array of pointers.
- MapUtil.GetAllGroupNames: a map with no layers yields an empty list where the C code returns NULL; allocation failure is not modelled.
- MapUtil.ConstrainExtentApproaches: requires an overlay in (0, 1]; other overlays overshoot or move nothing, and the C code does not check the value.
- Doubles in msConstrainExtent and the class scale tests are exact reals, so rounding is not modelled.
- MapProject.GetProjectionString: a NULL entry in the argument array is skipped by the C code; loaded projections never hold one, so arguments are plain strings here. The length computation and allocation are not modelled.
- MapProject.ProjectionsDiffer: the geotransform test makes a projection differ from itself; this is the source's behaviour (its comment calls the test provisional), so irreflexivity is proved only without a geotransform.
- MapProject.ProjFinder: the static buffer that holds the previous result, and its release in msSetPROJ_LIB, are not modelled; only the name it returns is.
- MapRaster.ClassVerdict: regular expressions and logical expressions are not evaluated; each class's verdict (match, no match, or a compile or parse failure) is a parameter. The 12-byte text buffer of msGetClass is not modelled, so components of any size are written in full.
- MapRaster.AddColorFrom: the palette is assumed to hold at most gdMaxColors (256, from gd.h, which is not part of this model) entries, as gd keeps it; the GD image structure is reduced to its colour slots.
- MapRaster.Search: the grey-colour shortcut of msAddColorGD compares two array addresses, which never coincide, so the squared distance is always used.
- MapString.Gsub: requires a non-empty pattern, because the C loop never ends on an empty one; a NULL replacement (which the C code treats as "") is not a separate case, since strings are never NULL here.
- MapString: the buffer handling of strcatalloc and the scratch buffers of msDecodeHTMLEntities are reduced to their logical contents; allocation failure is not modelled.
- CgiUtil: reading a request from a stream (fmakeword, _getline, send_fd) and loadParams are I/O and are not modelled; getword's caller-sized buffer is a sequence.
- CNumbers.Strtod: values are exact reals; rounding to the nearest double, infinities, NaN and hexadecimal floats are not modelled.
- CNumbers: `long` is taken to be 64 bits wide (an LP64 host).
- OutputFormat: the compile-time configuration (which GD, Ming, PDF and GDAL formats a build has, and which GDAL drivers initialise) is a parameter, `Build`; a failed GDAL initialisation leaves the list unchanged, where the C code frees and removes the new entry.
- OutputFormat.ApplyToSelfDangles: applying a format whose only reference is the map's own target drops its count to 0, so no clone is made: the format is edited in place, re-targeted and counted again, and then freed, leaving the target dangling; this is kept as the behaviour of the model, since callers pass members of the map's list, whose count is at least 2.
- ConnPool: the TLOCK_POOL lock and the close callbacks the drivers register are not modelled; the caller's thread is a parameter and each close the pool asks for is recorded, in order, in the pool's `closed` log.
- Shapefile: only the build without USE_POINT_Z_M is modelled (no Z or M arrays); files are byte sequences, the host is little-endian, and fopen/fread/fseek are replaced by reads of those sequences.
- Shapefile: the size of an SHX page is a parameter.
- Wcs20: msStringTrim, msParseTime with mktime, and msStringSplit are not part of this model and are parameters; CSLTokenizeString2's band list is a parameter.
- Wcs20.ParseSubsetAsWritten: the time the C code reads from a '*' bound depends on the layout of timeScalarUnion, a header that is not part of this model, so it is a parameter (`starTime`); the rest of the model uses the corrected ParseSubset, which takes '*' as the open end of a time trim.
- Wcs20: MS_WCS20_UNBOUNDED is not part of this model; it is assumed to lie beyond every value a request can give.
- Wcs20Coverage: an x subset with a CRS and a y subset without one makes the C code call strcasecmp with NULL; the model reports this as its own outcome.
- Wms.LayersRefusedExactly, Wms.CheckGetMapAccepts, Wms.StatusesFollowRequest: these describe a request with exactly one LAYERS parameter; Wms.LayersRefusedAll and Wms.CheckGetMapAcceptsAll carry the counters over any number of them, none included. The statuses and drawing order that a second LAYERS parameter leaves are not modelled: it resets the statuses but keeps appending to layerorder after the entries of the first pass, since nLayerOrder is set to zero only once (mapwms.c:577, 617-657).
- Wms.CheckGetMapAccepts, Wms.CheckGetMapAcceptsAll: only the layer, size and style refusals are modelled; the InvalidSRS refusals (mapwms.c:831-886 for an SRS that neither the map nor every requested layer offers, 937-946 for a map without a projection) and the refusal on a failed msWMSApplyTime (mapwms.c:799-805) are not, so a request these lemmas accept can still be refused by them.
- Wcs20, Wms: XML requests, capabilities and coverage documents, and HTTP output are not modelled.
- Wms: OWS version numbers (mapows.h is not part of this model) are encoded as major·0x10000 + minor·0x100 + revision.
- MapRasterQuery: reading pixel values through GDAL, the class lookup of a pixel value (msGetClass_Float), and the colour table are parameters; histogram modes and the qc_count array are not modelled.
- MapRasterQuery.Clamp: a NaN pixel value is not modelled; values are reals.
- MapRasterQuery.ItemValue, MapRasterQuery.GetShape: the "values" item is built in a 1000-byte buffer (maprasterquery.c:1058-1078) with no bound check, so about 62 or more bands overflow it; the model builds the text at any length.
- MapRendering: MS_IMAGECACHESIZE (defined in a header that is not part of this model) is a capacity parameter of at least 2; the rendering of a tile is a parameter (the image number it yields), and whether a pixmap symbol has been loaded is a parameter.
- MapRendering: computeSymbolStyle and the renderer plug-in calls are not modelled.
- MapScript: the error text registered with msSetError is not kept; only the NULL result is.
- MapScript.LineAdd: allocation failure of the point array is not modelled, and the M value copied in USE_POINT_Z_M builds is left out. The contract states only the new length; LineAddGet states the contents.
- TestLib: reading and writing files, running commands (os.system, popen), valgrind handling and compare_result are not modelled; every pass is a function from the old contents to the new.

## Findings

| source | as written | input that shows it | evidently intended | confidence | as-written member | corrected member |
|---|---|---|---|---|---|---|
| mapserver/mapwcs20.c:456-462 | a time trim compares `min.time >= max.time`, but a '*' bound gets only its scalar written (124-128), so its time is never set | SUBSET=t(*,2010-01-01): min.time holds whatever the bound's storage holds, the bits of MS_WCS20_UNBOUNDED when time and scalar share it, which exceed every date, so the trim is refused | '*' is the open end of the time interval | not executed; the layout of timeScalarUnion is in a header that is not part of this model, so the stored time is a parameter | Wcs20.ParseSubsetAsWrittenRefusesOpenStart | Wcs20.ParseSubsetOpenTime |
| mapserver/mapwms.c:1537-1548 | guard `numOtherGroups < currentLevel` before reading `otherGroups[currentLevel]` | current [a,b], level 1, other [a] | `numOtherGroups <= currentLevel` returns false | not executed | Wms.IsSubGroupAsWrittenOverruns | Wms.IsSubGroup |
| mapserver/mapwms.c:619-645 | every hit appended to layerorder, DEFAULT layers included, so a layer can be entered twice and only the first `numlayers` entries are drawn | layers "a" DEFAULT and "b" OFF, LAYERS=a,b: order [0,0,1], so "a" is drawn twice and "b" never; writing past the MS_MAXLAYERS-entry array needs more hits than that, e.g. LAYERS repeating the map name, which selects every layer | each layer placed once | not executed | Wms.SelectLayersAsWrittenCrowdsOut | Wms.SelectLayersPermutes |
| mapserver/maputil.c:551-559 | a rectangle below the bounds is shifted down and one above them up | bounds (0,0)-(10,10), rectangle (0,-5)-(10,-1), overlay 0.5 gives (0,-7)-(10,-3) | shift towards the bounds, as the x branch does | not executed | MapUtil.ConstrainExtentAsWrittenExample | MapUtil.ConstrainExtentApproaches |
| mapserver/mapshape.c:229-236 | the scan starts at `strlen - 1` and the test after it reads `pszBasename[i]` | the empty layer name: i is -1 | leave an empty name empty | not executed | Shapefile.BaseNameAsWritten | Shapefile.BaseNameCut |
| mapserver/mapshape.c:1296-1331 | part sizes come from unchecked offsets and vertices are read from a counter starting at 0 | a 72-byte polyline record with one part whose offset is -1 | refuse parts outside the vertex array | not executed | Shapefile.ReadPartsAsWrittenOverruns | Shapefile.ReadParts |
| mapserver/mapwcs20.c:3164-3197 | the band list buffer holds four characters per entry | RANGESUBSET=1000 gives "100" | the full band number "1000" | not executed | Wcs20Coverage.GetBandsAsWrittenTruncates | Wcs20Coverage.GetBandsLists |
| mapserver/mapraster.c:131 | `mindist` starts at 3·255² and only a strictly smaller distance is taken | a full palette of white asked for black returns -1 | the nearest palette entry, however far | not executed | MapRaster.AddColorGDAsWrittenMissesFarthest | MapRaster.AddColorGD |
| mapserver/maprasterquery.c:1130-1157 | the item array has ten slots whatever the band count | a five-band raster has at least eleven item names | an array sized to the names | not executed | MapRasterQuery.ItemsAsWrittenOverflow | MapRasterQuery.GetItems |
| mapserver/maprasterquery.c:1080-1085 | `value_N` indexes the values with N unchecked | `value_1` of a one-band pixel reads the next pixel's value | a value only for a band of the pixel | not executed | MapRasterQuery.ValueItemAsWrittenReadsNeighbour | MapRasterQuery.ValueItem |
| mapserver/mapscript/php3/mapscript_i.c:1247-1262 | the full-store error is registered but the new name is appended anyway | a new name given to a store holding MS_MAX_CGI_PARAMS entries | leave the store as it is | not executed | MapScript.SetParameterAsWrittenOverflows | MapScript.SetParameter |
| mapserver/maptemplate.c:982-986 | after a tag is replaced the search goes on one past its position | `[metadata name=ab][metadata name=c]` with ab empty: the second tag stays | resume at the replaced position | not executed | Template.MetadataAsWrittenSkipsNext | Template.MetadataReplacesNext |
| mapserver/maptemplate.c:528-548 | the nesting loop only ends when the open count reaches 0; once neither a start nor an end tag is left it repeats the same searches | `[x][x]a[/x]` leaves one level open and never ends | stop when no tag is left | not executed | Template.InlineTagAsWrittenHangs | Template.InlineTag |
| mapserver/maptemplate.c:437-441 | the partner of an opening quote is searched without a NULL check | `[t k="v]` makes the loop search from NULL | keep the quote as part of the value | not executed | Template.UnmatchedQuoteAsWritten | Template.GetTagArgsAsWrittenAgrees |
| msautotest/pymod/mstestlib.py:138 | `data[:start-1]` with start 0 is `data[:-1]` | a comment at the start of the data keeps all but the last character before the rest | drop nothing before the comment | not executed | TestLib.DeversionAsWrittenAtStart | TestLib.DeversionRemovesComment |
| msautotest/pymod/mstestlib.py:132-136 | the search for `-->` stops at `length - 5` | a `-->` followed by at most one character, i.e. lying in the last four characters, is not found, so the comment stays | find any closing `-->` | not executed | TestLib.DeversionAsWrittenAtEnd | TestLib.DeversionRemovesComment |
