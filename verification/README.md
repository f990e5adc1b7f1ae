# UltrabookReview scraper: a Dafny model

This project models the core of the UltrabookReview scraper. It covers the
laptop spider, which walks the review listing and turns each review page
into one item: a product row, image groups per section, and data points.
It also covers three item pipelines that consume those items.

- **Sheet writer.** The spreadsheet writer allocates one column per field name, flattens nested dicts into `key_subkey` columns and writes one row per product. It can resume from an earlier run's sheet.
- **Unit conversion.** This pipeline reads a unit table (`token-name` lines). For each column seen for the first time, it fixes a mapping from the tokens found in the value. It renames the column with the unit names, cuts the tokens out of every later value and turns numeric text into ints or floats.
- **Images.** This pipeline yields one download request per image reference and derives each image's file path, `images/<product>/<section>/<file name>`.

The modules follow the program's structure:

| module | file | models |
|---|---|---|
| `Text` | text.dfy | the Python `str` operations the program uses (`strip`, `split`, `replace`, `lower`, `in`, `str(int)`) |
| `Dicts` | dicts.dfy | Python's insertion-ordered `dict` |
| `Values` | values.dfy | the values a product row holds and `str()` of them |
| `SpiderGate` | spider_gate.dfy | `parse`: the seen-set gate over listing links |
| `SpiderHandlers` | spider_handlers.dfy | the block handlers: heading, main image, gallery, tables, pros and cons |
| `SpiderDetails` | spider_details.dfy | `parse_laptop_details`: handler dispatch over the page's blocks and the item's finishing |
| `SheetWriter` | sheet_writer.dfy | `UltrabookReviewPipeline` |
| `UnitConversion` | unit_conversion.dfy | `DataUnitConversionPipeline` |
| `ImagesPipeline` | images_pipeline.dfy | `LaptopImagesPipeline` |

Each piece of code that changes state step by step is an imperative method:

- a Dafny `class` for each pipeline object (`UltrabookReviewPipeline`, `DataUnitConversionPipeline`) and for the spider's seen set;
- a method with loop invariants for each loop (gallery images, table rows, pros and cons, block dispatch, image counting, column gathering, unit detection, token removal, request generation).

Each method is proved equal to a recursive specification function, and the
properties are proved about those functions as lemmas.

A Python exception becomes a `(state, ok)` result that keeps whatever was
done before the exception. Examples:

- a table row with fewer than two cells;
- a unit line that does not split into exactly two parts;
- a write to a column group;
- a `None` image reference.

The page itself is an abstract `Page` of content `Block`s. These carry what
the CSS selectors would extract: heading texts, table cell texts, image
`href`s, and pros and cons lists. A `Block`'s flags stand for whether a
selector matches it.

## Model

| member | source | states |
|---|---|---|
| SpiderGate.GateSeen | ultrabook_review/spiders/laptop_spider.py:74-78 | afterwards the seen set is the old one plus every listed link |
| SpiderGate.GateCounts | ultrabook_review/spiders/laptop_spider.py:74-80 | the seen set grows by one per request; each request carries the size of the seen set just after its link was added, counting on from the old size |
| SpiderGate.GateOnlyNew | ultrabook_review/spiders/laptop_spider.py:74-79 | only listed links that were not seen before are requested |
| SpiderGate.GateDistinct | ultrabook_review/spiders/laptop_spider.py:74-79 | no link is requested twice, even when the page lists it twice |
| SpiderGate.GateCovers | ultrabook_review/spiders/laptop_spider.py:74-79 | every listed link not seen before is requested |
| SpiderGate.LinksBefore | ultrabook_review/spiders/laptop_spider.py:74-75 | the links read are the `href`s of the anchors in order, up to the first anchor without one, where the read stops |
| SpiderGate.LaptopSpider.Parse | ultrabook_review/spiders/laptop_spider.py:69-84 | the new seen set and the requests are those of the gate over the links read before the first anchor without `href`; the seen set only grows; it finishes exactly when every anchor has an `href`; a page without laptops ends the crawl, a page that raised requests no next page, any other page asks for the page after the current one (page 1 when none, or 0, is given) |
| SpiderHandlers.HeaderText | ultrabook_review/spiders/laptop_spider.py:145-147 | the section label becomes the joined heading text, or the empty list when there is none (no label then); images and every other field are unchanged |
| SpiderHandlers.ImageItem | ultrabook_review/spiders/laptop_spider.py:121-128 | no reference exactly when there is no `href`; otherwise the URL starts with the base URL, is the `href` itself exactly when that already starts with it, and is otherwise base URL + `href`; no caption |
| SpiderHandlers.Append | ultrabook_review/spiders/laptop_spider.py:142-143 | the section's group becomes its old group (or none) followed by the new items; every other group and the group order are kept |
| SpiderHandlers.MainImage | ultrabook_review/spiders/laptop_spider.py:130-133 | with a section label the group gets exactly one more item, even a missing reference, and the total grows by one; without a label (TypeError) nothing changes |
| SpiderHandlers.AppendTotal | ultrabook_review/spiders/laptop_spider.py:212-214 | appending items to a group raises the image total by their number |
| SpiderHandlers.Resolve | ultrabook_review/spiders/laptop_spider.py:136-140 | the gallery keeps only references that are there, and keeps none exactly when no icon has an `href` |
| SpiderHandlers.ResolveOne | ultrabook_review/spiders/laptop_spider.py:138-140 | a linked icon gives exactly its image reference; an icon without a link gives nothing |
| SpiderHandlers.ResolveAppend | ultrabook_review/spiders/laptop_spider.py:137-140 | the references of two runs of icons are those of the first run followed by those of the second |
| SpiderHandlers.GalleryItems | ultrabook_review/spiders/laptop_spider.py:137-140 | the gallery loop computes the resolved references |
| SpiderHandlers.ProductImages | ultrabook_review/spiders/laptop_spider.py:135-143 | an empty gallery changes nothing; otherwise the references are appended to the section's group and the total grows by their number; it raises exactly when there are references and no section label |
| SpiderHandlers.ParseProductImages | ultrabook_review/spiders/laptop_spider.py:135-143 | the method computes the gallery handler's result |
| SpiderHandlers.Parsed | ultrabook_review/spiders/laptop_spider.py:89-90 | the rows before the first one with fewer than two cells, the one whose unpacking raises |
| SpiderHandlers.MergeRows | ultrabook_review/spiders/laptop_spider.py:89-95 | the row's keys keep their order and new keys are appended; it finishes exactly when every table row has two cells |
| SpiderHandlers.MergeTableRows | ultrabook_review/spiders/laptop_spider.py:89-95 | the loop over table rows computes the merge |
| SpiderHandlers.MergeRowsKeys | ultrabook_review/spiders/laptop_spider.py:89-95 | a key is present afterwards exactly when it was before or a row read before the raise names it |
| SpiderHandlers.MergeRowsValue | ultrabook_review/spiders/laptop_spider.py:89-95 | the last row read that names a key gives that key's joined value text |
| SpiderHandlers.MergeRowsOther | ultrabook_review/spiders/laptop_spider.py:89-95 | a key no row read names keeps its presence and value |
| SpiderHandlers.MergeRowsHeader | ultrabook_review/spiders/laptop_spider.py:89-95 | the section slot still holds a label or the empty list afterwards |
| SpiderHandlers.Specifications | ultrabook_review/spiders/laptop_spider.py:87-95 | the first table row is skipped and the others are merged without a prefix; it finishes exactly when those rows all have two cells |
| SpiderHandlers.ParseSpecifications | ultrabook_review/spiders/laptop_spider.py:87-95 | the method computes the specifications handler's result |
| SpiderHandlers.SpecificationsKeys | ultrabook_review/spiders/laptop_spider.py:87-95 | every new key is the joined key text of some two-cell row after the first |
| SpiderHandlers.GamePerformance | ultrabook_review/spiders/laptop_spider.py:98-112 | no first row, or a first row with fewer than two cells, raises with nothing changed; a first row without "FHD" changes nothing; otherwise it finishes exactly when the other rows all have two cells |
| SpiderHandlers.ParseGamePerformance | ultrabook_review/spiders/laptop_spider.py:98-112 | the method computes the game-performance handler's result |
| SpiderHandlers.GamePerformanceKeys | ultrabook_review/spiders/laptop_spider.py:98-112 | every new key is "Game_" followed by the key text of a two-cell row after the first |
| SpiderHandlers.Table | ultrabook_review/spiders/laptop_spider.py:114-119 | a missing label raises; a label mentioning "spec" (any case) reads specifications, else "performance" reads game results, else nothing changes; images never change |
| SpiderHandlers.TableHeaderSlot | ultrabook_review/spiders/laptop_spider.py:114-119 | a table keeps the section slot a label or the empty list |
| SpiderHandlers.ParseTable | ultrabook_review/spiders/laptop_spider.py:114-119 | the method computes the table handler's result |
| SpiderHandlers.ProsCons | ultrabook_review/spiders/laptop_spider.py:153-165 | the row keeps its key order and the new keys are appended |
| SpiderHandlers.ParseProsAndCons | ultrabook_review/spiders/laptop_spider.py:153-165 | the nested loops compute the pros-and-cons fields |
| SpiderHandlers.ProConEntryAt | ultrabook_review/spiders/laptop_spider.py:157-165 | assignment `10 t + i` is field i + 1 of list t, pros before cons |
| SpiderHandlers.ProConKeyInjective | ultrabook_review/spiders/laptop_spider.py:161 | two pros-and-cons keys are equal only for the same kind and number |
| SpiderHandlers.ProConEntriesDistinct | ultrabook_review/spiders/laptop_spider.py:157-165 | the twenty keys assigned are all different |
| SpiderHandlers.ProsConsFields | ultrabook_review/spiders/laptop_spider.py:153-165 | afterwards each `Pro_i_text` and `Con_i_text` holds item i's stripped text, or None |
| SpiderHandlers.ProsConsOther | ultrabook_review/spiders/laptop_spider.py:153-165 | every other field keeps its presence and value |
| SpiderDetails.Handle | ultrabook_review/spiders/laptop_spider.py:196-204 | a handler, even one that raises and is caught, keeps every key in order, never shortens an image group, never lowers the image total, and keeps the section slot well formed |
| SpiderDetails.RunHandler | ultrabook_review/spiders/laptop_spider.py:197-204 | the method computes one handler's effect, exception caught |
| SpiderDetails.ParseBlocks | ultrabook_review/spiders/laptop_spider.py:196-204 | the loop over blocks and handlers computes the page's dispatch |
| SpiderDetails.ApplyHandlersKeeps | ultrabook_review/spiders/laptop_spider.py:197-204 | trying the handlers on one block keeps keys, groups, total and slot as above |
| SpiderDetails.ProcessBlocksKeeps | ultrabook_review/spiders/laptop_spider.py:196-204 | so does the whole page |
| SpiderDetails.ProcessBlocksAppend | ultrabook_review/spiders/laptop_spider.py:196-200 | reading blocks a then b is reading a, then b from where a left off |
| SpiderDetails.InitialRow | ultrabook_review/spiders/laptop_spider.py:169-185 | the row starts with the section slot and the page's fixed fields, in that order, and keeps the section slot well formed |
| SpiderDetails.InitialRowValues | ultrabook_review/spiders/laptop_spider.py:168-185 | the section is "Specification"; the site, the product name, a blank category, the page URL, the request's fetch count (None when it carried none) and an empty data-points dict |
| SpiderDetails.StartTableSpecifications | ultrabook_review/spiders/laptop_spider.py:114-117 | a table met before any heading is read as specification rows, since the initial section "Specification" mentions "spec" |
| SpiderDetails.Close | ultrabook_review/spiders/laptop_spider.py:218-219 | "Total Images" is set to the total, and "Data Points" is popped out, defaulting to an empty dict |
| SpiderDetails.CloseOther | ultrabook_review/spiders/laptop_spider.py:218-219 | every other field keeps its value |
| SpiderDetails.CloseKeys | ultrabook_review/spiders/laptop_spider.py:218-219 | no field appears except "Total Images" |
| SpiderDetails.CountImages | ultrabook_review/spiders/laptop_spider.py:212-214 | the loop sums the group sizes |
| SpiderDetails.ParseLaptopDetails | ultrabook_review/spiders/laptop_spider.py:167-225 | the method yields the item of the page, or none |
| SpiderDetails.FinishSome | ultrabook_review/spiders/laptop_spider.py:209-217 | a row holding any field besides the section slot always yields an item |
| SpiderDetails.FinishFields | ultrabook_review/spiders/laptop_spider.py:209-223 | the item has no section slot and no "Data Points" field; its "Total Images" is the sum of its group sizes; its data points are what the row held |
| SpiderDetails.FinishProsCons | ultrabook_review/spiders/laptop_spider.py:205-219 | the item carries all twenty pros-and-cons fields |
| SpiderDetails.ExtractSome | ultrabook_review/spiders/laptop_spider.py:171-179 | a page yields an item exactly when it has a non-empty headline whose normalised name mentions " review " (any case) |
| SpiderDetails.ExtractFields | ultrabook_review/spiders/laptop_spider.py:167-225 | every item yielded has no section slot or "Data Points", its image total, and the page's pros and cons |
| SheetWriter.Opened | ultrabook_review/pipelines.py:50-62 | the corrected resume: data rows start at row 1 or later; the headers are the restored ones; when there is no sheet, or it has a row, this is the resume as written |
| SheetWriter.UltrabookReviewPipeline.constructor | ultrabook_review/pipelines.py:39-62 | the writer's state is the resume as written: restored headers, and row 1 and column 0 for a new sheet, or the existing sheet's row count, column count and cells |
| SheetWriter.OpenedNewAllocated | ultrabook_review/pipelines.py:50-55 | a new sheet without restored headers starts allocated |
| SheetWriter.OpenedResumedAllocated | ultrabook_review/pipelines.py:56-62 | a resumed sheet with at least one row starts allocated when every restored header is a plain column below the sheet's column count, named in row 0 of its column |
| SheetWriter.UltrabookReviewPipeline.AddColumn | ultrabook_review/pipelines.py:64-67 | the method performs `add_column` on the writer's state |
| SheetWriter.AddColumnAllocated | ultrabook_review/pipelines.py:64-67 | adding a name that has no column keeps the allocation invariant (every name labels its own column in row 0, left of the counter, and data rows start at row 1); rows other than 0, the row counter and the old headers are kept |
| SheetWriter.UltrabookReviewPipeline.AddSubColumn | ultrabook_review/pipelines.py:69-75 | the method performs `add_sub_column`; a column that is missing or is a plain column raises (KeyError, TypeError) with nothing changed |
| SheetWriter.AddSubColumnGroup | ultrabook_review/pipelines.py:69-75 | on a group, the sub-column gets the group's next child column, named in row 1 and merged under the group's header; the group counts one more child, the column counter moves on by one, the row counter and every other header stay |
| SheetWriter.AddSubColumnAllocated | ultrabook_review/pipelines.py:69-70 | an allocated sheet has no group, so `add_sub_column` raises and changes nothing |
| SheetWriter.UltrabookReviewPipeline.WriteRow | ultrabook_review/pipelines.py:77-98 | the method performs `write_row` on the writer's state; on an allocated sheet the modelled `write_row` reports success and the sheet stays allocated (xlwt's index limits are not modelled) |
| SheetWriter.WriteRowKeepsAllocated | ultrabook_review/pipelines.py:77-98 | on an allocated sheet the modelled `write_row` reports success and leaves the sheet allocated, so the invariant holds from one product to the next |
| SheetWriter.UltrabookReviewPipeline.CollectAll | ultrabook_review/pipelines.py:83-87 | the inner loop gathers a nested dict's fields |
| SheetWriter.UltrabookReviewPipeline.Collect | ultrabook_review/pipelines.py:85-92 | one field gets its column, allocated if new, and its value under that column |
| SheetWriter.UltrabookReviewPipeline.WriteData | ultrabook_review/pipelines.py:94-97 | the loop writes the gathered values into the current row |
| SheetWriter.GatherExtends | ultrabook_review/pipelines.py:79-93 | gathering only appends columns; every field name ends up with a header |
| SheetWriter.GatherAllocated | ultrabook_review/pipelines.py:79-93 | gathering keeps the sheet allocated: every column name labels its column in row 0 |
| SheetWriter.GatherIndexed | ultrabook_review/pipelines.py:79-93 | without column groups every gathered value sits under a plain column |
| SheetWriter.GatherKnown | ultrabook_review/pipelines.py:90-92 | fields whose names all have columns allocate nothing |
| SheetWriter.GatherNewNames | ultrabook_review/pipelines.py:85-91 | every new header is a field's name, at a column no lower than the old counter |
| SheetWriter.GatherGapFree | ultrabook_review/pipelines.py:85-91 | the new columns are consecutive, each labelled by the name that maps to it |
| SheetWriter.GatherData | ultrabook_review/pipelines.py:79-93 | the last value given for a name is the one held for its column |
| SheetWriter.WriteCellsFrame | ultrabook_review/pipelines.py:94-97 | writing cells changes nothing but cells |
| SheetWriter.WriteCellsIndex | ultrabook_review/pipelines.py:94-97 | plain columns are written in the current row only, stripped when text |
| SheetWriter.WriteRowAllocated | ultrabook_review/pipelines.py:77-98 | on an allocated sheet the row is written, the counter moves to the next row, existing headers are kept, and no row other than 0 and the current one changes |
| SheetWriter.WriteRowValues | ultrabook_review/pipelines.py:77-98 | each field's last value, stripped when text, lands in the current row under its name's column |
| SheetWriter.WriteRowSingle | ultrabook_review/pipelines.py:77-98 | a row with one plain field whose name has no column puts the name in row 0 of the next free column and the value, stripped when text, in the current row of that column, and the model reports success |
| SheetWriter.WriteRowKnown | ultrabook_review/pipelines.py:77-98 | a row whose names all have columns leaves headers and column counter alone |
| SheetWriter.ResumedEmptySheetLosesHeader | ultrabook_review/pipelines.py:56-60 | resuming as written from a sheet without rows writes the first product into the header row |
| SheetWriter.ResumedEmptySheetKeepsHeader | ultrabook_review/pipelines.py:50-62 | with the corrected resume the header row keeps the column's name |
| UnitConversion.UnitLinesStuck | ultrabook_review/pipelines.py:164-166 | after a line raises, later lines change nothing |
| UnitConversion.UnitLinesOk | ultrabook_review/pipelines.py:164-166 | parsing finishes exactly when every line splits into exactly two parts |
| UnitConversion.UnitLinesTable | ultrabook_review/pipelines.py:164-166 | when it finishes, the table is the old one with every (token, name) assigned in file order |
| UnitConversion.DataUnitConversionPipeline.ParseUnitTypes | ultrabook_review/pipelines.py:160-166 | no file changes nothing; otherwise the table and outcome are those of the file's lines; mappings are untouched |
| UnitConversion.DataUnitConversionPipeline.AddUnitLine | ultrabook_review/pipelines.py:165-166 | one line raises unless it splits in two, else assigns its token |
| UnitConversion.DataUnitConversionPipeline.OpenSpider | ultrabook_review/pipelines.py:168-176 | the unit table is parsed; when that does not raise, restored mappings, if any, replace the current ones |
| UnitConversion.DetectTokens | ultrabook_review/pipelines.py:195-198 | a token is detected exactly when it is in the table and occurs in the value |
| UnitConversion.DetectOrder | ultrabook_review/pipelines.py:195-198 | detected tokens keep the table's order |
| UnitConversion.DetectKey | ultrabook_review/pipelines.py:192-199 | the new column name is the old one followed by `(name)` for each detected token, in order |
| UnitConversion.DataUnitConversionPipeline.DetectUnits | ultrabook_review/pipelines.py:193-198 | the loop over the unit table computes the detection |
| UnitConversion.StripTokensShape | ultrabook_review/pipelines.py:203-205 | cutting tokens never lengthens the value, and a value holding none of them is unchanged |
| UnitConversion.StripTokensChanges | ultrabook_review/pipelines.py:203-205 | cutting tokens changes the value exactly when a non-empty token occurs in it, and then the value gets strictly shorter |
| UnitConversion.UnitSuffixCut | ultrabook_review/pipelines.py:203-211 | a value that ends in its column's only token, with no earlier character starting that token, is stored as the number before the token |
| UnitConversion.KilogramsExample | ultrabook_review/pipelines.py:203-211 | `1.2kg` under the token `kg` is stored as the float 1.2 |
| UnitConversion.DataUnitConversionPipeline.StripUnitTokens | ultrabook_review/pipelines.py:203-205 | the loop removes every occurrence of each token in turn |
| UnitConversion.CoerceDigits | ultrabook_review/pipelines.py:206-211 | a run of digits is stored as the int it denotes |
| UnitConversion.CoerceFraction | ultrabook_review/pipelines.py:206-211 | digits `w.f` whose fraction is not all zeros are stored as the float value(w) + value(f) / 10^len(f) |
| UnitConversion.CoerceWholeFraction | ultrabook_review/pipelines.py:206-211 | digits `w.f` whose fraction is all zeros are stored as the int value(w) |
| UnitConversion.CoerceGrouped | ultrabook_review/pipelines.py:206-211 | a comma between two digit runs is dropped: the value is stored as the digits without it, an int |
| UnitConversion.CoerceGroupedInt | ultrabook_review/pipelines.py:206-211 | a printed int, negative ones included, followed by a comma and digits is stored as if the comma were absent |
| UnitConversion.CoerceForeign | ultrabook_review/pipelines.py:206-211 | a value holding an ASCII character `float()` never accepts (a letter outside `e`, `inf`, `infinity`, `nan`, or any other ASCII symbol that is not part of a number) stays the text itself, commas kept |
| UnitConversion.ParseFraction | ultrabook_review/pipelines.py:207 | `float()` reads digits `w.f` as value(w) + value(f) / 10^len(f) |
| UnitConversion.FractionBounds | ultrabook_review/pipelines.py:208 | a fraction that is not all zeros lies strictly between 0 and 1, so the number is not whole |
| UnitConversion.DigitsAppend | ultrabook_review/pipelines.py:207 | two digit runs written together denote the first times 10^len(second) plus the second |
| UnitConversion.ParseIntToString | ultrabook_review/pipelines.py:207 | `float()` reads back the decimal text of any int |
| UnitConversion.CoerceIntToString | ultrabook_review/pipelines.py:206-211 | an int's text coerces back to the same int |
| UnitConversion.MappingsSticky | ultrabook_review/pipelines.py:192-201 | a column mapped before keeps its mapping; afterwards every column of the row is mapped, and no other column |
| UnitConversion.RowByWith | ultrabook_review/pipelines.py:190-212 | each field is converted with the mapping its column has once the row is done |
| UnitConversion.ConvertRowWith | ultrabook_review/pipelines.py:190-212 | the same for the pipeline's own value conversion |
| UnitConversion.MappingsKnown | ultrabook_review/pipelines.py:192-201 | a row whose columns are all mapped changes no mapping |
| UnitConversion.ConvertRowTwice | ultrabook_review/pipelines.py:186-214 | converting the same row again leaves the mappings alone and gives the same new row |
| UnitConversion.DataUnitConversionPipeline.ConvertField | ultrabook_review/pipelines.py:192-212 | one field: its column's mapping (fixed now if new), the new column name and the converted value |
| UnitConversion.DataUnitConversionPipeline.ProcessItem | ultrabook_review/pipelines.py:186-214 | the new mappings and the new row are those of the row's (key, stripped text) pairs; the unit table is untouched |
| ImagesPipeline.StoreDirectory | ultrabook_review/pipelines.py:222-223 | the directory name is the product name with every '/' turned into '-' and every other character kept, so it holds no '/' |
| ImagesPipeline.StoreDirectoryPlain | ultrabook_review/pipelines.py:222-223 | a product name without '/' is its own directory name |
| ImagesPipeline.GroupRequestsPrefix | ultrabook_review/pipelines.py:225-228 | a section yields one request per reference up to its first `None`, in order; it stops at that `None` |
| ImagesPipeline.GroupRequestsOk | ultrabook_review/pipelines.py:225-228 | a section finishes exactly when none of its references is `None` |
| ImagesPipeline.SectionRequestsCount | ultrabook_review/pipelines.py:224-228 | when all sections finish, there are as many requests as references |
| ImagesPipeline.SectionRequestsOk | ultrabook_review/pipelines.py:224-228 | all sections finish exactly when no reference is `None` |
| ImagesPipeline.SectionRequestsSound | ultrabook_review/pipelines.py:224-228 | every request comes from a reference of its own section, under the product's directory |
| ImagesPipeline.MediaRequestsTotal | ultrabook_review/pipelines.py:220-228 | a finished item yields as many requests as its image total and has a product name |
| ImagesPipeline.GetMediaRequests | ultrabook_review/pipelines.py:220-228 | the generator's loops yield those requests; a missing product name raises first |
| ImagesPipeline.ItemRequests | ultrabook_review/pipelines.py:225-228 | the inner loop yields one section's requests |
| ImagesPipeline.Basename | ultrabook_review/pipelines.py:237 | `os.path.basename`: the suffix after the last '/', holding no '/' |
| ImagesPipeline.UpTo | ultrabook_review/pipelines.py:237 | the longest prefix without a stop character, used for the URL parts |
| ImagesPipeline.PosixJoin | ultrabook_review/pipelines.py:234-238 | `os.path.join`: an absolute part replaces the path; otherwise the part is appended, after a '/' exactly when the path is non-empty and does not end with one |
| ImagesPipeline.FileNameOfPath | ultrabook_review/pipelines.py:237 | the file name is the URL path's last segment, up to its `;` parameters |
| ImagesPipeline.FileNameSegment | ultrabook_review/pipelines.py:237 | the file name holds no '/', '?', '#' or ';' |
| ImagesPipeline.JoinPathShape | ultrabook_review/pipelines.py:234-238 | parts that neither are empty nor start or end with '/' join as `images/<store>/<key>/<name>` |
| ImagesPipeline.JoinPathAbsolute | ultrabook_review/pipelines.py:234-238 | a section label starting with '/' drops the images and product directories |
| ImagesPipeline.FilePathShape | ultrabook_review/pipelines.py:230-238 | a request's path is `images/<store>/<key>/<file name>` for such parts |
| ImagesPipeline.FilePathAbsoluteKey | ultrabook_review/pipelines.py:230-238 | a request whose label starts with '/' is stored outside the images directory |
| ImagesPipeline.MediaRequestPaths | ultrabook_review/pipelines.py:220-238 | every request of an item is stored under `images/<product directory>/<section>/`, and its section is one of the item's groups, holding that image |
| Text.SplitParts | ultrabook_review/pipelines.py:165 | `split('-')` gives one more part than there are separators, none holding a separator |
| Text.SplitJoin | ultrabook_review/pipelines.py:165 | joining the parts with the separator gives back the text |
| Text.RemoveAll | ultrabook_review/pipelines.py:205 | `replace(t, '')` never lengthens a text |
| Text.RemoveAllAbsent | ultrabook_review/pipelines.py:205 | a text without `t` is unchanged |
| Text.RemoveAllShrinks | ultrabook_review/pipelines.py:205 | a text holding `t` loses at least one copy of it |
| Text.RemoveAllChanges | ultrabook_review/pipelines.py:205 | for a non-empty `t`, the text changes exactly when it holds `t` |
| Text.RemoveAllCopies | ultrabook_review/pipelines.py:205 | the length lost is a whole number of copies of `t`: the number found times the length of `t` |
| Text.RemoveAllSkip | ultrabook_review/pipelines.py:205 | a prefix holding no character that starts `t` is kept, and the copy of `t` after it is removed |
| Text.CopiesSkip | ultrabook_review/pipelines.py:205 | `replace(t, '')` finds no copy of `t` in a prefix holding no character that starts `t`, and then finds the copy after that prefix once, before the copies in the rest |
| Text.NatToStringValue | ultrabook_review/spiders/laptop_spider.py:161 | the decimal text of a number reads back as that number |

## Left out

- **I/O.** No filesystem, network or database access is modelled; these become parameters instead:
  - the pickle files for the seen set, header columns and mappings: their loaded contents, or none;
  - the unit file: its lines, or none;
  - the existing workbook: its row count, column count and cells, or none;
  - the page: a `Page` of abstract blocks;
  - the image URLs.

  The CSS selection itself, `close_spider` (pickling and saving the workbook), `start_requests` and the Scrapy request/response plumbing are not modelled.
- **MongoDB.** `MongoDBPipeline` and `get_fetched_products_from_mongo` only talk to MongoDB and are not modelled.
- **`save_data_points`.** It only creates directories and writes files. Its directory name is the same `StoreDirectory` the image pipeline uses.
- **`file_path` side effects.** The directory creation and caption file of `file_path` are not modelled (no image reference the spider builds has a caption). Only the path string is.
- **xlwt.** The library's cell-overwrite check, its rejection of value types it cannot write other than tuples, merged-cell rendering and the `.xls` index limits are not modelled. A merge is recorded as a `Merge` value. xlwt raises ValueError when a column index is above 255 or a row index is above 65535. The model's row and column indices are unbounded ints and no write fails for its index.
- **`add_sub_column`.** No code in the repository calls it. Column groups only reach the writer through restored headers, where `write_row` raises TypeError when writing to one.
- **Class attributes.** `headers`, `unit_types`, `header_mappings`, `products_fetched` and the counters are class attributes shared across instances in Python. Each object here owns its own.
- **None keys.** The None-key filters (`if key is None`, the dict comprehension at laptop_spider.py:210) are not modelled. Keys are strings and the spider never builds a None key.
- **`lower()`.** Only ASCII letters are lowered.
- **Concurrency.** Scrapy runs callbacks concurrently; each callback here runs on its own.
- **Generator exceptions.** When `get_media_requests` raises part-way, the model returns the requests yielded so far. What Scrapy then does with them is not modelled.
- **After a `None` reference.** A main-image block without an `href` puts a `None` reference into its group. It still counts towards `Total Images`, and `get_media_requests` raises on it. The model keeps both behaviours as written.
- Values.ToText: `str()` of a float or a dict is not modelled. The product row only holds strings, ints, None and the empty list when the unit conversion and image pipelines read it.
- UnitConversion.FieldText: a float or dict field value gives the empty text instead of its `str()`, for the same reason.
- ImagesPipeline.GetMediaRequests: requires the product name to be printable in that sense.
- ImagesPipeline.MediaRequests: requires the product name to be printable in that sense.
- UnitConversion.ParseDecimal: `float()` is modelled for plain decimal notation only. That is an optional sign, digits, an optional point and digits, surrounded by whitespace. Exponents, underscores, `inf` and `nan` are read as text that does not parse, and floats are exact reals rather than binary doubles. In the program, `inf` parses, then `int()` of it raises OverflowError, which the `except` at pipelines.py:210 does not catch, so `process_item` raises. `nan` parses too; `int()` of it raises ValueError, which is caught, so the float nan is stored. Unicode decimal digits other than 0-9 (such as '٣' or '３'), which `float()` reads as digits, are read as text that does not parse.
- ImagesPipeline.UrlPath: only `http` and `https` URLs are split as `urlparse` splits them, with the scheme matched in lower case. Any other text is taken as a bare path.
- SheetWriter.AddColumnSpec: always succeeds. In the program, `sheet.write(0, col_index, name)` at pipelines.py:65 raises ValueError once `col_index` reaches 256, before `headers` is updated, so every later product with a new field raises again.
- SheetWriter.UltrabookReviewPipeline.AddColumn: always succeeds, as AddColumnSpec does, without the ValueError at column 256.
- SheetWriter.UltrabookReviewPipeline.WriteRow: its success on an allocated sheet does not hold in the program once a new field's column reaches 256 (pipelines.py:65) or the row index reaches 65536 (pipelines.py:97). Both raise ValueError in xlwt.
- SheetWriter.WriteRowAllocated: states success and the written row without xlwt's column limit of 255 and row limit of 65535.
- SheetWriter.WriteRowKeepsAllocated: states success without the same two limits.
- SheetWriter.WriteRowSingle: states success for every state, including those whose next free column is above 255 or whose row index is above 65535, where xlwt raises.
- SpiderGate.LaptopSpider.Parse: the `cur_page` meta value is taken as an optional int, so `int()` of a non-numeric string is not modelled.

## Findings

| source | as written | input that shows it | evidently intended | confidence | as-written member | corrected member |
|---|---|---|---|---|---|---|
| ultrabook_review/pipelines.py:56-60 | resuming from an existing sheet sets the row counter to the sheet's row count, which is 0 for a sheet with no rows, the header row | an existing output sheet with no rows, no restored headers, and a row `{"id": 7}` | data rows start at row 1, below the column names, as for a new sheet | medium, not executed | SheetWriter.ResumedEmptySheetLosesHeader | SheetWriter.ResumedEmptySheetKeepsHeader |
