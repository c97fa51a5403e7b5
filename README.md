# Footnotes for showdown, modelled in Dafny

This project models the footnote extension for the showdown Markdown
converter (`b/showdown-footnotes.js`).

The extension has two filters and a set of module-level tables: `footnotes`,
`footRefs`, `footMarkers` and `orphanedRefs`.

The first filter, `tokenizeFootnotes`, runs before showdown:
- It appends the sentinel `~0` and escapes the private trema character.
- It cuts every footnote definition `[^id]: content` out of the text.
- It replaces every marker `[^id]` with a placeholder.
- It binds each marker to a definition, first citation first. A definition
  that is bound is removed from `footRefs`; a marker that finds no definition
  becomes an orphan.
- It puts back the definitions nobody cited and reverts the orphan markers.
- Last, it strips the remaining definition placeholders and the sentinel.

The second filter, `replaceTokensWithHtml`, runs on showdown's output. It
numbers the footnotes 1, 2, … in the order of `footnotes`, and it:
- turns the first placeholder of each footnote into a `<sup>` anchor;
- renders each footnote body through the converter, with the guard option
  `blockFootnotesExtension` switched on;
- appends the footer list.

How the model is built:
- **The class.** `Footnotes.FootnoteExtension` holds the tables and the guard
  option as fields. The two filters are its methods, `Tokenize` and
  `ReplaceTokensWithHtml`. Each loop of the source is a method with a loop.
- **The specification functions.** Each method is proved against one:
  `Pipeline.Tokenization` gives every stage of the first filter and
  `Render.Page` gives the result of the second. Both are written in the
  system's own terms.
- **The text between the passes.** It is a sequence of spans: plain text, a
  definition placeholder `¨F¨R¨S id ¨F¨R¨E`, or a marker placeholder
  `¨F¨M¨S id ¨F¨M¨E`. `Tokens.Flatten` spells the spans out as the string the
  source holds. The rewrites of lines 136-149 search that string for a
  placeholder; the model rewrites the placeholder spans instead. This
  reading is an abstraction. It rests on every `¨` of the user's text being
  followed by `T` after the trema escape (`JsString.EscapeTremaShape`), so
  that no stretch of user text spells a frame; `Flatten` itself is not
  proved injective.
- **The two regular expressions of the tokenizer.** Module `Scanner` writes
  them out as scanners that follow JavaScript's backtracking: a lazy id, an
  optional blank, a lazy body, and the three-way lookahead that ends a
  definition.
- **The converter's `makeHtml`.** It is a function parameter. Its second
  argument is the value of the guard option at the time of the call.

## Model

| member | source | states |
|---|---|---|
| JsString.ReplaceAll | b/showdown-footnotes.js:90 | a `replace` with a global pattern: every non-overlapping occurrence, left to right, without rescanning what was inserted (the properties are the lemmas below) |
| JsString.ReplaceFirst | b/showdown-footnotes.js:182 | a `replace` with a string pattern: the leftmost occurrence only (the properties are the lemmas below) |
| JsString.ReplaceFirstAt | b/showdown-footnotes.js:182 | a replace with a string pattern rewrites exactly the leftmost occurrence and keeps the text around it |
| JsString.ReplaceFirstAbsent | b/showdown-footnotes.js:182 | a first-occurrence replace that finds nothing returns its input unchanged |
| JsString.ReplaceAllAbsent | b/showdown-footnotes.js:144 | a global replace that finds nothing returns its input unchanged |
| JsString.EscapeTrema | b/showdown-footnotes.js:90 | `¨` becomes `¨T` (its properties are EscapeTremaShape and TremaRoundTrip) |
| JsString.UnescapeTrema | b/showdown-footnotes.js:198 | `¨T` becomes `¨` again |
| JsString.EscapeTremaShape | b/showdown-footnotes.js:90 | after the escape, every trema is followed by `T` |
| JsString.TremaRoundTrip | b/showdown-footnotes.js:198 | the unescape at line 198 undoes the escape at line 90 for every text |
| JsString.EscapedPairOrigin | b/showdown-footnotes.js:90 | an occurrence of a two-character pattern without `¨` or `T` in the escaped text comes from an occurrence in the raw text |
| JsString.EscapeTremaKeepsAbsent | b/showdown-footnotes.js:90 | the escape creates no `~0` and no `[^` |
| JsString.EscapeDollar | b/showdown-footnotes.js:96 | `$` becomes `¨D` in an id |
| JsString.UnescapeDollar | b/showdown-footnotes.js:144 | `¨D` becomes `$` again |
| JsString.EscapeDollarIdentity | b/showdown-footnotes.js:96 | the `$` escape leaves an id unchanged exactly when the id holds no `$` |
| JsString.EscapeDollarNoDollar | b/showdown-footnotes.js:109 | an escaped id holds no `$` |
| JsString.DollarRoundTrip | b/showdown-footnotes.js:144 | the unescape at line 144 undoes the escape at lines 96 and 109 for every id without a `¨D` of its own |
| JsString.UnescapeDollarClean | b/showdown-footnotes.js:144 | no `¨D` is left after the unescape |
| JsString.UnescapeDollarNoDollar | b/showdown-footnotes.js:144 | an unescape whose result holds no `$` changed nothing |
| JsString.EscapedSliceNoTremaD | b/showdown-footnotes.js:96 | no slice of trema-escaped text holds `¨D`, so every id cut from it round-trips |
| JsString.SentinelRoundTrip | b/showdown-footnotes.js:152 | removing the first `~0` gives back the text appended to at line 87, whenever that text has no `~0` |
| JsString.Dedent | b/showdown-footnotes.js:185 | `replace(/^ {0,3}/gm, '')`: up to three spaces dropped at the start of every line (the properties are the three lemmas below) |
| JsString.DedentShrinks | b/showdown-footnotes.js:185 | the indentation strip only removes characters: the result is no longer than the input and is a sub-multiset of it |
| JsString.DedentIndent | b/showdown-footnotes.js:185 | a line indented by k spaces loses min(k, 3) of them |
| JsString.DedentNoIndent | b/showdown-footnotes.js:185 | a text none of whose lines starts with a space is left unchanged |
| JsString.Trim | b/showdown-footnotes.js:185 | `trim()` returns a slice of its input; everything around the slice is white space and the slice neither starts nor ends with white space; white space is JavaScript's full set, line terminators and U+00A0, U+FEFF and the U+2000 block included |
| JsString.NatToString | b/showdown-footnotes.js:179 | `n.toString()` is a non-empty string of decimal digits |
| JsString.NatToStringRoundTrip | b/showdown-footnotes.js:179 | the numeral reads back as `n`, so distinct footnotes get distinct numbers |
| Scanner.SpaceRun | b/showdown-footnotes.js:95 | the run of spaces before an indentation limit: every counted character is a space and the next one is not |
| Scanner.NextIdClose | b/showdown-footnotes.js:95 | the lazy id `(.+?)]:` ends at the first `]:` reached without crossing a line terminator; `None` exactly when no `]:` closes a one-line id |
| Scanner.Lookahead | b/showdown-footnotes.js:95 | the three alternatives of the lookahead: `~0`, `\n {0,2}\S`, or the head of another definition at the start of a line |
| Scanner.NextLookahead | b/showdown-footnotes.js:95 | the first position where the lookahead holds, or that no such position exists |
| Scanner.BodyAt | b/showdown-footnotes.js:95 | the content after `]:` is non-empty; it skips at most one blank, which is a space or tab; it ends at a lookahead position with no lookahead position inside it |
| Scanner.BodyAtChoice | b/showdown-footnotes.js:95 | a body is found whenever the lookahead holds after its first character; the blank is taken whenever the rest can still match after it; `None` means no lookahead position follows |
| Scanner.DefTail | b/showdown-footnotes.js:95 | when the body cannot match, the id backtracks to a later `]:`; the id stays on one line and the body matches after the chosen `]:`; `None` means no closing `]:` is followed by a body |
| Scanner.IsDefMatch | b/showdown-footnotes.js:95 | what a match of the definition pattern at p is, independently of the scanner: the text it spells, at a line start, with the lookahead at its end and nowhere inside its content |
| Scanner.DefMatchAt | b/showdown-footnotes.js:95 | the definition pattern tried at one position: a match found there covers a non-empty stretch of the text from that position (which match it is: the two lemmas below) |
| Scanner.DefMatchAtSound | b/showdown-footnotes.js:95 | what the scanner finds at p is a match of the pattern |
| Scanner.DefMatchAtChoice | b/showdown-footnotes.js:95 | whenever the pattern has a match at p the scanner finds one, and it finds the one JavaScript's engine tries first: the shortest id, and for that id the blank before the empty gap |
| Scanner.BuildMatch | b/showdown-footnotes.js:95 | the pieces found by the scanner form a match of the definition pattern |
| Scanner.NextDef | b/showdown-footnotes.js:95 | the global replace's search: the first position where the pattern matches, with no match before it; `None` means no match from there on |
| Scanner.ScanDefsFrom | b/showdown-footnotes.js:95-103 | the global definition replace from an offset, over a table of the match at each position: the pieces spell the text with every definition put back as its whole match, every `Def` piece is the match found at its offset, and no match starts inside a `Plain` piece |
| Scanner.DefPieces | b/showdown-footnotes.js:95-103 | the definition scan of a whole text: loss-free, and its pieces are exactly the matches the global replace finds, left to right |
| Scanner.ScanDefsNoCaret | b/showdown-footnotes.js:95 | a text without `[^` holds no definition |
| Scanner.NextBracket | b/showdown-footnotes.js:107 | the lazy marker id `(.+?)]` ends at the first `]` reached without crossing a line terminator; `None` means no `]` closes a one-line id |
| Scanner.MarkerAt | b/showdown-footnotes.js:107 | a marker at i is `[^`, a one-line id of at least one character, and the first `]` after that character, so `[^]]` has the id `]`; `None` exactly when no marker starts at i |
| Scanner.MarkerAtFirst | b/showdown-footnotes.js:107 | any marker at i whose id holds no `]` after its first character is the one the pattern finds |
| Scanner.NextMarker | b/showdown-footnotes.js:107 | the global replace's search: the first position where a marker starts, with none before it |
| Scanner.ScanMarksFrom | b/showdown-footnotes.js:107-116 | the global marker replace from an offset, over a table of the marker at each position: the chunks and the markers `[^id]` spell the text, every `Cite` is the marker found at its offset, and no marker starts inside a `Chunk` |
| Scanner.MarkPieces | b/showdown-footnotes.js:107-116 | the marker scan of a stretch of text: loss-free, and its markers are exactly the ones the global replace finds, left to right |
| Scanner.ScanMarksNoCaret | b/showdown-footnotes.js:107 | a text without `[^` holds no marker |
| Tokens.Flatten | b/showdown-footnotes.js:95-149 | the spans spelled out as the text the source holds between the stages, each placeholder framed by `¨F`; not proved injective (see the intro) |
| Tokens.DefTable | b/showdown-footnotes.js:97-100 | `footRefs` after the callback has run for every piece in order (its properties are DefTableKeys and LastWriteWins) |
| Tokens.DefTableKeys | b/showdown-footnotes.js:97-100 | an id is registered in `footRefs` exactly when some definition carries it |
| Tokens.LastWriteWins | b/showdown-footnotes.js:97-100 | an id registered more than once holds the content and the whole match of its last definition |
| Tokens.MarkSpans | b/showdown-footnotes.js:107-116 | the text after the marker scan: each stretch of plain text cut at its markers, placeholders kept |
| Tokens.MarkIds | b/showdown-footnotes.js:107-116 | `footMarkers` after the marker scan |
| Tokens.CiteIds | b/showdown-footnotes.js:109-111 | the escaped ids the callback pushes for one stretch, in marker order |
| Tokens.CiteSpansRefs | b/showdown-footnotes.js:107-116 | the ids of the placeholders the callback writes into a stretch are exactly the ids it pushes, in the same order |
| Tokens.MarkIdsAreRefs | b/showdown-footnotes.js:107-116 | the ids pushed onto `footMarkers` are exactly the ids of the marker placeholders in the text, in the same order |
| Tokens.MarkIdsNoDollar | b/showdown-footnotes.js:109-111 | no id pushed onto `footMarkers` holds a `$` |
| Tokens.MarkSpansDefCount | b/showdown-footnotes.js:107 | the marker scan neither creates nor drops a definition placeholder |
| Binding.BindStep | b/showdown-footnotes.js:120-132 | one turn of the loop sends the marker to exactly one of the two lists and leaves its id unregistered |
| Binding.Bind | b/showdown-footnotes.js:119-133 | after the loop every marker has gone to one of the two lists, and `footRefs` has only lost entries |
| Binding.Claimed | b/showdown-footnotes.js:119-133 | the reference definition of `footnotes`: the first citation of every registered id, in marker order |
| Binding.Unclaimed | b/showdown-footnotes.js:119-133 | the reference definition of `orphanedRefs`: every other marker, in marker order |
| Binding.BindMeaning | b/showdown-footnotes.js:119-133 | the binding loop computes the reference definition: `footnotes` is the claimed ids in marker order with their table content; `orphanedRefs` is the unclaimed markers; `footRefs` keeps exactly the uncited ids with their entries |
| Binding.ClaimPartition | b/showdown-footnotes.js:119-133 | every marker goes to exactly one of the two lists: the lengths add up, and the two lists together hold the markers counted with multiplicity |
| Binding.ClaimedCited | b/showdown-footnotes.js:119-133 | every claimed id is a cited marker with a registered definition |
| Binding.ClaimedDistinct | b/showdown-footnotes.js:129-131 | the relation is one-to-one: no id is claimed twice |
| Binding.ClaimedExactly | b/showdown-footnotes.js:119-133 | an id is claimed exactly when it is cited and registered |
| Binding.UnclaimedExactly | b/showdown-footnotes.js:122-123 | a marker is an orphan exactly when its id is unregistered or cited at least twice |
| Binding.NothingClaimed | b/showdown-footnotes.js:122-123 | when no marker is registered, nothing is claimed and every marker is an orphan |
| Restore.RestoreOne | b/showdown-footnotes.js:138 | every placeholder of the id becomes the whole match, every other span stays in its place, and no placeholder of the id is left |
| Restore.RestoreDefs | b/showdown-footnotes.js:136-140 | the restore of every registered id; what it does to the tokenized text is stated by Pipeline.UnclaimedRestored, Pipeline.DefinitionsRestored and Pipeline.RedefinedUncited, and its frame by RestoreDefsMeaning and RestoreDefsStep |
| Restore.RestoreDefsMeaning | b/showdown-footnotes.js:136-140 | the frame of the restore as its callers use it, split into cases: a placeholder of a registered id becomes its whole match, every other span stays in its place |
| Restore.RestoreDefsStep | b/showdown-footnotes.js:136-140 | restoring one more id extends the restore to one more key, so the order in which the `for … in` loop visits the ids does not matter |
| Restore.RestoreKeepsMarkers | b/showdown-footnotes.js:136-140 | the restore leaves the marker placeholders and their order alone |
| Restore.RevertOne | b/showdown-footnotes.js:145 | every marker placeholder of the id becomes `[^id]`, every other span stays in its place, and no marker placeholder of the id is left |
| Restore.RevertSpans | b/showdown-footnotes.js:143-146 | the revert of every orphan id; what it does to the tokenized text is stated by Pipeline.OrphanReverted, Pipeline.DuplicateCitation, Pipeline.MarkerPasses and Pipeline.LiteralPasses, and its frame by RevertSpansMeaning and RevertSpansStep |
| Restore.RevertSpansMeaning | b/showdown-footnotes.js:143-146 | the frame of the revert as its callers use it, split into cases: a marker placeholder of a searched id becomes `[^id]`, every other span stays in its place |
| Restore.RevertSpansStep | b/showdown-footnotes.js:143-146 | the loop over `orphanedRefs` reverts one more orphan id per turn |
| Restore.StripDefs | b/showdown-footnotes.js:149 | line 149 deletes every definition placeholder left (its properties are the two lemmas below) |
| Restore.StripDefsMeaning | b/showdown-footnotes.js:149 | the strip keeps exactly the spans that are not definition placeholders |
| Restore.StripDefsKeeps | b/showdown-footnotes.js:149 | a kept span comes out right after the spans kept before it, so the strip keeps the order |
| Pipeline.Tokenization | b/showdown-footnotes.js:74-155 | every stage of the first filter on an unguarded call, in the order the source runs them; what the stages promise is stated by the lemmas below |
| Pipeline.BindingPartition | b/showdown-footnotes.js:119-133 | for every input, the ids in `footnotes` and `orphanedRefs` together are exactly `footMarkers`, counted with multiplicity |
| Pipeline.FootnoteOrder | b/showdown-footnotes.js:119-133 | `footnotes` lists the first citation of every defined id in marker order; its ids are distinct; an id occurs exactly when it is cited and defined |
| Pipeline.OrphanMeaning | b/showdown-footnotes.js:122-123 | an id is in `orphanedRefs` exactly when it is cited and either undefined or cited at least twice |
| Pipeline.LastDefinition | b/showdown-footnotes.js:97-100 | every registered id has a last definition, and the table holds that definition |
| Pipeline.FootnoteContent | b/showdown-footnotes.js:125-128 | each footnote's content is the content of the last definition of its id |
| Pipeline.DefinitionsRestored | b/showdown-footnotes.js:95-140 | when no id is defined twice, putting every definition placeholder back as its table entry spells the scanned text again |
| Pipeline.RestoredPiece | b/showdown-footnotes.js:136-140 | a piece of the definition scan comes back as it was matched unless a later definition carries its id |
| Pipeline.UnclaimedRestored | b/showdown-footnotes.js:136-140 | every placeholder of an uncited id is put back as the whole match of the last definition of that id |
| Pipeline.RedefinedUncited | b/showdown-footnotes.js:95-140 | an id defined twice and never cited leaves at least two placeholders, and every one of them comes back as the last definition's whole match, so the earlier definition's text is lost |
| Pipeline.DefTokensRegistered | b/showdown-footnotes.js:95-103 | every definition placeholder in the text belongs to a registered id |
| Pipeline.MarkSpansDefTok | b/showdown-footnotes.js:107 | the marker scan creates no definition placeholder: each one was there before it |
| Pipeline.NoDefinitionLeft | b/showdown-footnotes.js:149 | no definition placeholder survives the strip |
| Pipeline.OrphanReverted | b/showdown-footnotes.js:143-146 | an orphan marker whose id had no `$` (its escaped id holds no `¨D`) is put back as `[^id]` |
| Pipeline.DollarMarkerKept | b/showdown-footnotes.js:143-146 | a marker whose id holds a `$` is never reverted, even as an orphan |
| Pipeline.BoundMarkerKept | b/showdown-footnotes.js:119-149 | the placeholder of a footnote cited once survives the restore, the revert and the strip |
| Pipeline.MarkerKept | b/showdown-footnotes.js:136-149 | a registered marker cited once survives the three rewrites |
| Pipeline.MarkerPasses | b/showdown-footnotes.js:136-149 | for any spans and tables, a marker placeholder whose id is not an orphan id survives the restore, the revert and the strip |
| Pipeline.LiteralKept | b/showdown-footnotes.js:136-149 | text around the footnote syntax survives the restore and the revert in place, and the strip in order |
| Pipeline.LiteralPasses | b/showdown-footnotes.js:136-149 | for any spans and tables, a literal span stays in place through the restore and the revert, and in order through the strip |
| Pipeline.DuplicateCitation | b/showdown-footnotes.js:119-146 | for an id defined and cited twice: the first citation binds and the second is an orphan; the global revert turns every citation of the id back into `[^id]`, so the bound footnote keeps no placeholder |
| Pipeline.SentinelNoCaret | b/showdown-footnotes.js:87 | appending the sentinel creates no `[^` |
| Pipeline.NoCaretScans | b/showdown-footnotes.js:95-116 | both scans leave a text without `[^` as one stretch and register nothing |
| Pipeline.QuietRewrites | b/showdown-footnotes.js:136-149 | with empty tables, a text that is one literal span passes lines 136-149 unchanged |
| Pipeline.NoFootnoteSyntax | b/showdown-footnotes.js:74-155 | a text without `[^` and without `~0` comes out exactly as its trema escape, and all four tables end empty |
| Markup.SupHtml | b/showdown-footnotes.js:68 | the `<sup>` anchor of footnote n, with the numeral as its id, link target and text |
| Markup.ItemHtml | b/showdown-footnotes.js:69 | the footer entry of footnote n around its rendered body |
| Markup.BackrefHtml | b/showdown-footnotes.js:70 | the back-reference of footnote n, linking to its anchor |
| Markup.PiecesFree | b/showdown-footnotes.js:68-70 | the literal parts of the three templates hold no `%` |
| Markup.SupShape | b/showdown-footnotes.js:179 | `markSup.replace(/%1/g, n)` puts the numeral into the id, the link and the text of the anchor |
| Markup.BackrefShape | b/showdown-footnotes.js:186 | the back-reference links to anchor number n |
| Markup.ItemShape | b/showdown-footnotes.js:189 | the numeral goes into the item's id and the rendered body into the item, whatever the body holds |
| Render.BodyMarkdown | b/showdown-footnotes.js:185 | the body's markdown: dedented, then trimmed |
| Render.Substituted | b/showdown-footnotes.js:182 | the text after k turns of the loop: the first placeholder of the i-th footnote's marker becomes anchor number i + 1 |
| Render.Entry | b/showdown-footnotes.js:186-189 | the footer entry of footnote n, its body rendered with the guard option on |
| Render.Items | b/showdown-footnotes.js:176-190 | the footer entries, numbered from 1 in the order of `footnotes` |
| Render.Page | b/showdown-footnotes.js:192-201 | the whole result: the unescaped text, a newline and the footer |
| Render.EntryInOrder | b/showdown-footnotes.js:176-190 | the footer lists the footnotes in order: the entry numbered k + 1 follows the entries of the k footnotes before it |
| Render.SubstitutedAbsent | b/showdown-footnotes.js:182 | text with no placeholder of any footnote is left unchanged by the substitution loop |
| Render.SubstituteFirst | b/showdown-footnotes.js:182 | each turn rewrites exactly the leftmost placeholder of its footnote's marker into anchor number k + 1 |
| Footnotes.FootnoteExtension.constructor | b/showdown-footnotes.js:63-66 | the tables start empty and the guard option off |
| Footnotes.FootnoteExtension.ScanDefinitions | b/showdown-footnotes.js:95-103 | the loop leaves the text that `DefSpans` describes and the table `DefTable`, registering each definition in text order |
| Footnotes.FootnoteExtension.ScanStretch | b/showdown-footnotes.js:107-116 | one stretch of text is cut at its markers, and their escaped ids are appended to `footMarkers` in order |
| Footnotes.FootnoteExtension.ScanMarkers | b/showdown-footnotes.js:107-116 | the marker scan of the whole text: `footMarkers` ends as `MarkIds` of the text |
| Footnotes.FootnoteExtension.BindMarkers | b/showdown-footnotes.js:119-133 | the binding loop leaves `footnotes`, `footRefs` and `orphanedRefs` as `Bind` of the markers and the old table |
| Footnotes.FootnoteExtension.RestoreDefinitions | b/showdown-footnotes.js:136-140 | the restore of every registered id, visited in any order |
| Footnotes.FootnoteExtension.RestoreOrphans | b/showdown-footnotes.js:143-146 | the revert of every orphan id, in the order of `orphanedRefs` |
| Footnotes.FootnoteExtension.Tokenize | b/showdown-footnotes.js:74-155 | when guarded, the text and all tables are unchanged; otherwise the tables are reset and the result and the four tables are those of `Tokenization`; the guard option is never changed |
| Footnotes.FootnoteExtension.TokenizeAfresh | b/showdown-footnotes.js:80-152 | from whatever tables it finds, the filter resets them and leaves the result and the four tables of `Tokenization`, so nothing carries over from an earlier document |
| Footnotes.FootnoteExtension.ScanText | b/showdown-footnotes.js:87-116 | after the sentinel, the trema escape and both scans, the text, `footRefs` and `footMarkers` are those of `Tokenization` |
| Footnotes.FootnoteExtension.RewriteText | b/showdown-footnotes.js:119-152 | after the binding loop and the three rewrites, the result and the tables `footnotes`, `footRefs` and `orphanedRefs` are those of `Tokenization` |
| Footnotes.FootnoteExtension.RenderFootnotes | b/showdown-footnotes.js:176-190 | the loop substitutes each footnote's anchor and builds the footer entries, numbered from 1 |
| Footnotes.FootnoteExtension.ReplaceTokensWithHtml | b/showdown-footnotes.js:157-202 | when guarded, or when there are no footnotes, the text is returned unchanged; otherwise the result is `Page`, and the guard option is back to its old value |
| Footnotes.LoopTurn | b/showdown-footnotes.js:177-189 | one turn of the loop yields anchor number i + 1 and the next footer entry |
| Footnotes.EntryTurn | b/showdown-footnotes.js:186-189 | the entry the templates build for footnote n is an `<li>` with id n holding the rendering, with the guard on, of the dedented and trimmed content followed by the back-reference to anchor n |

## Left out

- `PixelFont.js` and the module loader (lines 5-22) are not part of this model.
- The converter's `makeHtml` is a parameter: rendering Markdown is showdown's own code.
- The registration of the two filters and the converter object are left out. The guard option `blockFootnotesExtension` is the field `blocked`, and `setOption` is an assignment to it.
- Concurrency is not modelled. Neither is the sharing of the module-level tables between converters.
- Restore.RestoreOne: the search at line 138 is built with `new RegExp` from the raw id. The model matches the placeholder literally, so it agrees with the source only for ids without regular-expression metacharacters such as `.`, `*`, `(` or `+`. An uncited `[^*]: x` is not put back by the source, since `S*` changes what the pattern means, and line 149 then deletes it; the model puts it back.
- Restore.RestoreDefs: inherits the literal match of Restore.RestoreOne for every registered id.
- Restore.RevertOne: the search at line 145 is built with `new RegExp` from the orphan id, matched literally here. For an orphan such as `[^(]` the source's `new RegExp` throws a SyntaxError and the filter fails; the model raises no error and reverts the marker.
- Restore.RevertSpans: inherits the literal match of Restore.RevertOne for every orphan id.
- Footnotes.FootnoteExtension.RestoreDefinitions: inherits the literal match of Restore.RestoreOne.
- Footnotes.FootnoteExtension.RestoreOrphans: inherits the literal match of Restore.RevertOne, and raises no error where the source throws.
- Footnotes.FootnoteExtension.Tokenize: for ids with regular-expression metacharacters it follows the literal matches above, not the source.
- Footnotes.FootnoteExtension.TokenizeAfresh: the same as Tokenize.
- Footnotes.FootnoteExtension.RewriteText: the same as Tokenize.
- Restore.RestoreOne: the whole match is inserted literally. In the source, `$&`, `` $` ``, `$'` and `$$` in a replacement string are expanded. The same holds for the rendered body at line 189 (Markup.ItemShape).
- Pipeline.RedefinedUncited: an id defined twice and never cited comes back twice as its last definition; the first definition's text is lost. This is what the source does, and the model keeps it.
- Tokens.Flatten: not proved injective. That the rewrites of lines 136-149 touch exactly the placeholder spans is argued from Tokens.Flatten's framing and JsString.EscapeTremaShape, not proved about the flat string.
- Tokens.MarkSpans: the marker scan runs over the text between definition placeholders, not over the placeholders. The case where a definition's id itself contains `[^` is therefore not modelled.
- Tokens.DefTable: JavaScript object-key behaviour is not modelled. That covers ids such as `__proto__` or `hasOwnProperty`, and the `for … in` order. Restore.RestoreDefsStep shows the order does not matter.
- Pipeline.NoFootnoteSyntax: the claim covers texts without a `~0` of their own. Line 152 removes only the first `~0`, so with a user `~0` the sentinel at the end stays in the output.
- The doc comment at lines 37-38 says a second citation of a footnote is left as plain text. The code also reverts the first citation (Pipeline.DuplicateCitation). The model follows the code; the bound footnote is still listed in the footer.
