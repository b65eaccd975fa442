# Verified model of HobeRadius' address allocator, request guards and translation tools

This Dafny project models the parts of the repository that carry real logic and proves what they promise:

- the **fixed Framed-IP allocator** (`app/radius/fixed_ip.py`; the attribute is the one of section 5.8 of RFC 2865): one slice
  of the supernet per customer, a start offset from a hash, cyclic probing, and races settled by the primary key and the
  unique constraint. Every SQL statement is one atomic step over a table, every call in flight a small state machine, and the
  theorems speak about every interleaving of any number of calls (`Arith`, `FixedIpSlices`, `FixedIpSystem`, `FixedIpRaces`,
  `FixedIpReleases`, `FixedIpAnswers`, `FixedIpPool`);
- **request-time state** (`app/api/auth.py`, `app/__init__.py`): the sliding-window limiter, the memo of permission decisions,
  and the page rewriting for refused forms (`RateLimiter`, `SubmitMemo`, `RefusedForms`, `FormWrapping`,
  `RefusedResponse`, `RefusedMarks`);
- **marked-string translation** (`app/i18n_text.py`, `MarkedText`);
- the **source-to-source translation tools** (`tools/i18n_wrap_code.py`, `tools/i18n_inventory.py`, `tools/i18n_wrap.py`):
  the recursive JavaScript tokenizer (`JsLexer`, `JsTokenLaws`, `JsClosed`, `JsLexerProofs`, `JsTokenizer`), the Jinja
  splitter and its mask (`JinjaRegions`, `JinjaStrings`, `JinjaTags`, `TemplateMask`, `JinjaTrans`), literals (`Quotes`,
  `JsCooked`), placeholder names (`Identifiers`, `Placeholders`), the rewriting of f-strings and of template literals
  (`PercentFormat`, `FStrings`, `JsTemplates`, `JsBraces`), the text that is written and how it reads back (`JsLeaves`,
  `JsObjects`, `JsObjectProofs`, `JsRewriting`, `JsBrokenCalls`, `JsChains`, `JsLinks`), edit selection and splicing
  (`Edits`), and protecting and restoring regions around two wrapping passes (`ProtectRestore`, `WrapSource`, `WrapPasses`,
  `WrapLaws`, `WrapCalls`);
- the **surgical .po editor and the import of translations** (`tools/i18n_master.py`; the format is that of the GNU gettext
  manual, section "The Format of PO Files"): `Paragraphs`, `PoText`, `PoEntry`, `PoLines`, `PoFlags`, `EntryStore`, `PoFile`,
  `PoUsed`, `MasterImport`, `MasterRows`.

`Text` holds shared text functions. Code that works by updating variables, tables or arrays is a method or a class proved
against a function; what is promised is then proved about that function. `dafny verify dfyconfig.toml` checks everything.

## Where the code does not do what it is meant to do

Each of these is proved, with the exact condition under which the code does meet its purpose:

- Customers whose ids are equal modulo the number of slices share a slice (`FixedIpSlices.SlicesDisjointIff`,
  `FixedIpSlices.CustomersMayShareASlice`).
- With a concurrent release, `FixedIpExhausted` can be raised while the slice has room. Given which rows may be deleted, it means a
  full slice in all runs if and only if neither rows of the slice nor rows of the user itself are among them, among the names that
  the entry points let through (`FixedIpReleases.HarmlessReleasesIff`). A row of the slice forges it from every full table
  (`FixedIpRaces.ReleaseForgesExhaustion`), the user's own row from every table without the user
  (`FixedIpReleases.OwnReleasesForgeExhaustion`); the smallest input is `FixedIpRaces.ReleaseCanForgeExhaustion`.
- An import can be refused although the table holds the very pair it asked for: exactly when the pair appeared between its two
  statements (`FixedIpRaces.ConflictIff`, `FixedIpRaces.FalseConflictIff`), as when two identical imports race
  (`FixedIpRaces.RacingImportsConflict`). Without another INSERT for the user in between a conflict means that somebody
  stands in the way (`FixedIpRaces.ConflictMeansTaken`).
- The limiter reads its clock before it takes its lock. With readings up to d seconds out of order, 60 - d seconds is exactly the
  length of interval that stays within the limit (`RateLimiter.WindowBound`, `RateLimiter.SkewBoundIff`), and 60 + d seconds before
  to d seconds after a refused call is exactly where the accepted calls behind the refusal are found
  (`RateLimiter.RefusalWindowIff`); with a limit of one call 60 seconds hold whatever the readings (`RateLimiter.LimitOneBound`).
- A page with a form that disabled itself and a form that is wrapped loses text (`RefusedForms.OnlyInsertsIff`,
  `RefusedForms.MixedPagesLoseText`, for instance `FormWrapping.AMixedPage`); disabling outside buttons drops white space
  (`RefusedForms.DisablingOnlyInsertsIff`, for instance `FormWrapping.AButtonWithABlank`). The response as a whole keeps the
  page if and only if neither happens (`RefusedResponse.ResponseOnlyInsertsIff`).
- Marks nested deeper than 51 are not found when none lies higher (`MarkedText.OutputUnmarkedIff`,
  `MarkedText.DeepMarksAreMissed`), nor are marked keys when no value is marked (`MarkedText.MarkedKeysAloneAreMissed`), and
  keys that translate alike lose an entry (`MarkedText.CollidingKeysLoseAnEntry`).
- The name hint `_1` becomes `1`, which is no identifier (`Identifiers.NameIsIdentifierIff`).
- A plain f-string hole keeps its meaning only if its value formats without a spec like `str` (`FStrings.PlainHoleIff`).
- With values in which no placeholder begins, the call written for a template literal keeps its meaning if and only if no hole is
  undefined, no raw text holds a carriage return and every pair can be printed (`JsRewriting.MeaningPreservedIff`). The
  printed pairs are read back if and only if each expression is closed and balanced by itself, has no comma outside brackets
  and no line comment, its name is an identifier or a number that is its own key, and a name printed alone is no reserved
  word (`JsObjectProofs.ReadsBackIff`). So `${this}`, `${null}`, `${true}` and other reserved words, `${a, b.c}`, `${_01}` and a hole
  that ends in a line comment become broken calls (`JsBrokenCalls.ReservedWordBreaks`, `JsBrokenCalls.ThisBreaks`,
  `JsBrokenCalls.CommaBreaks`, `JsBrokenCalls.LeadingZeroBreaks`, `JsBrokenCalls.CommentBreaks`).
- In the scripts of templates the printed pairs are split at ", " again; they come back if and only if no expression holds a comma
  with a blank behind it (`JsChains.ChainItemsIff`), which `${f(a, b)}` does (`JsChains.ArgumentsAreSplit`).
- A value is put in as it is in every rewritten literal if and only if no placeholder begins in it, that is, it holds no
  `{name}` and does not end in `{` and the beginning of a name (`JsBraces.SafeIff`); otherwise it can be filled in again
  (`JsBraces.BracesInValuesAreFilledAgain`).
- `jinja_regions` raises IndexError exactly when it comes to a tag whose last string is never closed and ends in an odd number of
  backslashes (`JinjaRegions.FailsIff`, `JinjaStrings.FailsIffDangles`, for instance `JinjaStrings.OpenStringFails`).
- `scan_template` raises IndexError, besides, exactly when a block, once blanks, tabs, line ends and the marks - and + are stripped
  from it, is not empty and all white space, such as a form feed (`TemplateMask.Mask`, `TemplateMask.TransFailsIff`, for
  instance `TemplateMask.FormFeedBlockFails`).
- Restoring protected regions fails for sources without NUL when a gap between two regions spells, between U+0001
  characters, the number of an earlier region (`ProtectRestore.RestoreUndoesProtectIff`, for instance
  `ProtectRestore.ADeceptiveSource`).
- A wrapped literal of a template ends its expression where it should if and only if it does not end in an odd run of backslashes,
  which escapes its closing quote (`WrapCalls.TagEndsIff`).
- Saving a .po file right after loading it gives it back byte for byte if and only if its line ends are all of one kind
  (`PoFile.UneditedSaveIff`).
- An import does not set what the file has already, so an entry that is fuzzy stays fuzzy, and unused, when the table only repeats
  its translation (`MasterRows.ImportedIsUsedIff`).
- An entry set with an empty message is not found after reloading (`PoEntry.NewBlockOk`).
- `fix_translation` is idempotent unless the text holds two carriage returns before a line feed
  (`MasterImport.FixIsIdempotentIff`, for instance `MasterImport.TwoReturnsAreFixedTwice`); a table with two translations
  for one message makes every import write again (`MasterImport.SecondImportChangesIff`).

## Model

| member | source | states |
|---|---|---|
| FixedIpSlices.ParseRendered | app/radius/fixed_ip.py:140-141 | rendering an address and parsing it gives the address back |
| FixedIpSlices.RenderParsed | app/radius/fixed_ip.py:232-235 | every accepted address text is the rendering of its address, so the unique text column is unique on addresses |
| FixedIpSlices.AddressTextInjective | app/radius/fixed_ip.py:140-141 | different addresses have different texts |
| FixedIpSlices.CountIsPower | app/radius/fixed_ip.py:63-67 | the slices have equal power-of-two size and exactly fill the supernet |
| FixedIpSlices.SupernetInRange | app/radius/fixed_ip.py:54-61 | every accepted supernet is aligned and lies in the IPv4 range |
| FixedIpSlices.SliceInsideSupernet | app/radius/fixed_ip.py:121-130 | a slice exists exactly for ids from 0 and accepted configurations; it is aligned, of block size and inside the supernet |
| FixedIpSlices.SlicesDisjointIff | app/radius/fixed_ip.py:121-130 | slices are disjoint if and only if the ids have different residues; equal residues give the same slice |
| FixedIpSlices.CustomersMayShareASlice | app/radius/fixed_ip.py:128-130 | with the default prefixes, ids that differ by 256 get one slice |
| FixedIpSlices.ProbeIsABijection | app/radius/fixed_ip.py:181-190 | the probe visits every usable address of the slice exactly once, and never the network, gateway or broadcast address |
| FixedIpSystem.EntryPointsStart | app/radius/fixed_ip.py:146-235 | what the four entry points begin with is a legal start in the step system |
| FixedIpSystem.TableStaysInjective | app/radius/fixed_ip.py:188-204 | in every interleaving of any number of calls the table stays a partial injection from user names to addresses |
| FixedIpSystem.RunsStayGood | app/radius/fixed_ip.py:188-204 | a property of user, address and customer that the calls start with holds of the table and of every call in every run |
| FixedIpSystem.NoAddressIsShared | app/radius/fixed_ip.py:188-251 | in every run two users never hold texts of the same IPv4 address |
| FixedIpSystem.RowsStayInTheirSlice | app/radius/fixed_ip.py:181-204 | in runs without imports every row holds a usable address of its customer's slice |
| FixedIpSystem.ReleaseFreeRuns | app/radius/fixed_ip.py:160-208 | without releases the table only grows and every answered call agrees with it, in every interleaving |
| FixedIpSystem.SameAddressForEver | app/radius/fixed_ip.py:146-204 | without releases all allocations for one user return one address, and `framed_ip_for` reads it ever after |
| FixedIpRaces.ExhaustedMeansFull | app/radius/fixed_ip.py:183-222 | in every interleaving in which no release deletes a row of the slice or of the user itself, exhaustion is raised only when every usable address is held |
| FixedIpRaces.ExhaustedMeansFullWithoutReleases | app/radius/fixed_ip.py:183-208 | so in every release-free interleaving exhaustion means a full slice |
| FixedIpRaces.ExhaustedSawEachHeld | app/radius/fixed_ip.py:188-222 | in every interleaving, releases included, an exhausted call tried every usable address, and each was held then or the user had a row then that was deleted later |
| FixedIpRaces.ReleaseForgesExhaustion | app/radius/fixed_ip.py:188-222 | for every plan, from every table that holds all candidates, releasing any holder at the right moment raises exhaustion while its address is free |
| FixedIpReleases.OwnReleasesForgeExhaustion | app/radius/fixed_ip.py:188-251 | for every plan, from every table without the user, imports and releases of the user around its INSERTs raise exhaustion and leave the table as it was |
| FixedIpRaces.ReleaseCanForgeExhaustion | app/radius/fixed_ip.py:181-222 | with slices of four addresses: exhaustion is raised by legal calls although the table is empty |
| FixedIpReleases.HarmlessReleasesIff | app/radius/fixed_ip.py:188-222 | exhaustion means a full slice in all runs that delete allowed rows only, if and only if no row of the slice and no row of the user itself may be deleted, among the names that the entry points let through |
| FixedIpRaces.ConflictIff | app/radius/fixed_ip.py:236-251 | for any tables at the SELECT and at the INSERT: when an import is refused, and that it is refused although the pair is there exactly when the pair appeared in between |
| FixedIpRaces.FalseConflictIff | app/radius/fixed_ip.py:236-251 | the same in every interleaving, where another call's INSERT for the user made the pair appear |
| FixedIpRaces.ConflictMeansTaken | app/radius/fixed_ip.py:236-251 | in every interleaving without another INSERT for the user between the two statements, an import is refused if and only if the user holds another address or another user holds this one |
| FixedIpRaces.RacingImportsConflict | app/radius/fixed_ip.py:225-251 | two racing imports of one free pair, from every table: one returns, the other is refused although the table then holds the pair |
| FixedIpSystem.EveryStepIsProgress | app/radius/fixed_ip.py:160-251 | every step of a call brings it closer to its end, whatever the table |
| FixedIpSystem.AloneIsASchedule | app/radius/fixed_ip.py:160-251 | running a call alone is one of the interleavings |
| FixedIpSystem.ProbingAlone | app/radius/fixed_ip.py:188-206 | the probing loop alone takes the first free candidate or ends exhausted when all are held |
| FixedIpSystem.AllocateAlone | app/radius/fixed_ip.py:160-208 | alone, allocation returns the stored address, or the first free one in cyclic order, or fails exactly when none is free |
| FixedIpSystem.ReleaseUndoesAllocate | app/radius/fixed_ip.py:211-222 | releasing right after a first allocation restores the table |
| FixedIpPool.Pool.Insert | app/radius/fixed_ip.py:191-199 | the INSERT succeeds exactly when neither constraint is violated and changes nothing otherwise |
| FixedIpPool.Pool.FramedIpFor | app/radius/fixed_ip.py:146-157 | reads the stored address; empty names and unknown users give None |
| FixedIpPool.Pool.ProbeFor | app/radius/fixed_ip.py:188-208 | the probing loop ends as the step system run alone |
| FixedIpPool.Pool.AllocateFixedIp | app/radius/fixed_ip.py:160-208 | result and table are those of the step system run alone from the entry point, and those said in numbers: the stored address, or the first address not taken of base + 2 + (hash + k) mod n, or the error of the name, the customer or the configuration |
| FixedIpPool.Pool.AssignSpecificIp | app/radius/fixed_ip.py:225-251 | result and table are those of the step system run alone from the entry point, and follow from the name, the address and who holds it |
| FixedIpPool.Pool.AssignFor | app/radius/fixed_ip.py:236-251 | succeeds if and only if the user holds this address or holds none and it is free; a conflict changes nothing |
| FixedIpPool.Pool.ReleaseFixedIp | app/radius/fixed_ip.py:211-222 | deletes the row of the stripped name and says whether there was one |
| FixedIpAnswers.AssignAlone | app/radius/fixed_ip.py:236-251 | what an import alone does to the table in each of the four cases |
| FixedIpAnswers.AllocatedAlone | app/radius/fixed_ip.py:109-208 | what an allocation alone answers and stores, in numbers: slice from customer and prefixes, start from the hash, first address not taken, and the errors |
| FixedIpAnswers.AssignedAlone | app/radius/fixed_ip.py:225-251 | what an import alone answers and stores, by name and address |
| RateLimiter.Limiter.Check | app/api/auth.py:121-135 | one call on the shared log: the key's log and the verdict change as the window function says, other keys do not |
| RateLimiter.KeysAreIndependent | app/api/auth.py:121-135 | in every run the log of a key depends only on the calls for that key |
| RateLimiter.RunKeepsInv | app/api/auth.py:121-135 | in every run with readings at most d seconds out of order the log is the last part of the accepted calls, dropped entries are old, and accepted calls are spaced |
| RateLimiter.WindowBound | app/api/auth.py:121-135 | any closed interval of 60 - d seconds holds at most the limit of accepted calls per key, in every run with readings at most d seconds out of order; with an ordered clock, 60 seconds |
| RateLimiter.SkewBoundIff | app/api/auth.py:126-135 | for limits from two on, exactly the intervals of up to 60 - d seconds stay within the limit in all such runs |
| RateLimiter.LimitOneBound | app/api/auth.py:126-135 | with a limit of one, 60 seconds hold one accepted call in every run, whatever the readings |
| RateLimiter.RefusedExactly | app/api/auth.py:121-135 | a call is refused if and only if the limit of accepted calls lies in the last 60 seconds |
| RateLimiter.RefusedUnderSkew | app/api/auth.py:126-135 | with readings at most d seconds out of order, a call is refused only when the limit of accepted calls lies between 60 + d seconds before and d seconds after it |
| RateLimiter.RefusalWindowIff | app/api/auth.py:126-135 | for limits from two on, these bounds are sharp: exactly the intervals that hold this one are sure to hold the limit of accepted calls in all such runs |
| RateLimiter.EnforceApiAuth | app/api/auth.py:266-379 | an authenticated request passes at once without being charged; otherwise the reply, the flag and the log follow from credential, limiter and guard |
| RateLimiter.HandleRequest | app/api/auth.py:382-391 | a request that passes the central guard and the decorator is charged exactly once |
| SubmitMemo.Request.AskGuard | app/__init__.py:1005-1020 | the guard's decision is returned and the stored reason of a denial is as before |
| SubmitMemo.Request.CanSubmit | app/__init__.py:980-1031 | the memoised answer is the one without a cache, although a provisional entry is written before the paired check |
| SubmitMemo.AskAll | app/__init__.py:980-1031 | for every sequence of questions in one request all answers are the cache-free ones and the stored denial is unchanged |
| SubmitMemo.ShownLinkCanBeSaved | app/__init__.py:1021-1030 | a page for a new or edited record is offered only if saving it is allowed too |
| SubmitMemo.PairIs | app/__init__.py:1025-1027 | names in _new pair with _create, names in _edit with _update, no others |
| SubmitMemo.ViewNameIs | app/__init__.py:980-980 | the blueprint's prefix is dropped and nothing else |
| SubmitMemo.MethodNameIs | app/__init__.py:981-981 | methods are read in capital letters, a missing one as POST |
| RefusedForms.OnlyInsertsIff | app/__init__.py:1596-1634 | erasing the insertions gives the page back if and only if it does not mix wrapped and self-disabled refused forms |
| RefusedForms.MixedPagesLoseText | app/__init__.py:1619-1623 | on a mixed page text is lost |
| FormWrapping.EachFormWrappedOnce | app/__init__.py:1600-1631 | a form that is refused, has an end, has not disabled itself and does not start inside a handled one gets one note and one fieldset around its content, at one place; no other form gets any |
| FormWrapping.NothingElseInserted | app/__init__.py:1624-1631 | every inserted fragment is one of those of a wrapped form |
| FormWrapping.FieldsetEndsAtEndTag | app/__init__.py:1624-1634 | on a page without self-disabled refused forms the text goes on at the form's end tag behind the fieldset |
| FormWrapping.ActionsAreHandled | app/__init__.py:1600-1623 | the loop acts on exactly those forms |
| FormWrapping.AMixedPage | app/__init__.py:1619-1623 | a page with one form to wrap and one that disabled itself loses text |
| RefusedForms.VisitForm | app/__init__.py:1600-1631 | one round of the loop on output, cursor, flag and ids |
| RefusedForms.RewriteForms | app/__init__.py:1596-1634 | the loop produces the rewritten page, the flag and the ids of all refused forms with an end |
| RefusedForms.DisablingOnlyInsertsIff | app/__init__.py:1562-1579 | disabling outside buttons only inserts text if and only if no such tag has white space before its closing bracket |
| RefusedForms.DisableExternalSubmits | app/__init__.py:1562-1579 | the loop produces the page with the buttons disabled; the count is zero exactly when none had to be |
| RefusedMarks.FragmentsDisable | app/__init__.py:1624-1630 | the fieldset is opened with the attribute disabled and closed, and a button gets that attribute; the note is an element of its own |
| RefusedMarks.BlockedIff | app/__init__.py:1614-1616 | the ids whose buttons are disabled are exactly those of the handled forms |
| RefusedMarks.RefusedButtonsAreDisabled | app/__init__.py:1562-1579 | every button that sends a handled form and is not disabled gets the attributes right before its bracket, and there are no more insertions than such buttons |
| RefusedMarks.WrappedDisablesItself | app/__init__.py:1619-1625 | a form that was wrapped counts as self-disabled on any page it stands on, so it is not wrapped again |
| RefusedMarks.NotesAreRespected | app/__init__.py:1619-1621 | a form whose template marks it as read-only is not wrapped |
| FormWrapping.AButtonWithABlank | app/__init__.py:1571-1574 | a button with a blank before its closing bracket loses it |
| RefusedResponse.ResponseOnlyInsertsIff | app/__init__.py:1596-1637 | erasing all insertions of both passes from the final page gives the page back if and only if it is not mixed and no disabled button has white space before its bracket |
| RefusedResponse.RewriteResponse | app/__init__.py:1596-1637 | the two passes in a row produce that page, and the flag tells whether a form was wrapped or a button disabled |
| MarkedText.CheckReachesDepth51 | app/i18n_text.py:133-143 | the fast check is true if and only if a marked value lies at depth 51 or less |
| MarkedText.NothingStaysMarked | app/i18n_text.py:108-130 | translation leaves no marked value at any depth |
| MarkedText.OutputUnmarkedIff | app/i18n_text.py:108-130 | the output has no marked value if and only if there was none, or a translation is available and one lay within reach of the check |
| MarkedText.TranslatedIff | app/i18n_text.py:108-143 | without a translation, or without a mark within reach, the value comes back as it was; otherwise all of it is translated |
| MarkedText.MarkedKeysAloneAreMissed | app/i18n_text.py:133-143 | a dictionary with only its key marked comes back as it was |
| MarkedText.DeepMarksAreMissed | app/i18n_text.py:133-143 | a mark deeper than 51 comes back unchanged |
| MarkedText.ShapeIsKept | app/i18n_text.py:119-130 | shape and plain keys are kept when translated keys stay distinct |
| MarkedText.ShapeNeedsDistinctKeys | app/i18n_text.py:119-130 | shape is kept only when translated keys stay distinct |
| MarkedText.CollidingKeysLoseAnEntry | app/i18n_text.py:123-124 | two keys with one translation leave one entry |
| Edits.SortIsSorted | tools/i18n_wrap_code.py:422 | the sort by start and descending end is a sorted permutation |
| Edits.OverlapIff | tools/i18n_wrap_code.py:425-427 | two edits overlap exactly when they replace the same character |
| Edits.GreedySelects | tools/i18n_wrap_code.py:423-429 | kept edits are disjoint, come from the list, and every dropped edit overlaps a kept one that starts earlier, or at the same place and is no shorter |
| Edits.SelectSorted | tools/i18n_wrap_code.py:423-429 | the loop keeps what the greedy rule keeps |
| Edits.SelectEdits | tools/i18n_wrap_code.py:708-715 | selection from an unsorted list has the same guarantees |
| Edits.SpliceStep | tools/i18n_wrap_code.py:431-432 | one splice from the right turns the text with the later edits into the text with this one too |
| Edits.SpliceRightToLeft | tools/i18n_wrap_code.py:430-432 | splicing from right to left equals one pass from left to right |
| Edits.ApplyEdits | tools/i18n_wrap_code.py:1071-1080 | selection and splicing together: the gaps interleaved with the kept replacements |
| Edits.UntouchedSurvives | tools/i18n_wrap_code.py:430-432 | every character outside the kept ranges survives at its place shifted by the edits before it |
| Edits.ReplacementsAppear | tools/i18n_wrap_code.py:430-432 | every kept replacement appears in full where its range was |
| Identifiers.NameIsIdentifierIff | tools/i18n_wrap_code.py:110-114 | the cleaned name is an identifier if and only if the hint is not an underscore before a digit |
| Identifiers.CleanNameIs | tools/i18n_wrap_code.py:110-114 | which name an expression's hint gives: itself without an underscore in front, or v where it is no usable name |
| Identifiers.SuffixesRunOut | tools/i18n_wrap_code.py:115-119 | the numbered names are pairwise different, so the search for a free one ends |
| Identifiers.FreshName | tools/i18n_wrap_code.py:115-121 | returns the first free name of base, base2, base3, … |
| Quotes.PyLiteralOfQuote | tools/i18n_wrap_code.py:70-90 | Python reads the quoted literal back as the text, for every text |
| Quotes.LiteralShows | tools/i18n_wrap_code.py:74-88 | no literal holds an invisible character, and a text is written as it is exactly when all its characters are visible and neither a backslash nor the quote |
| Quotes.QuoteIsBest | tools/i18n_wrap_code.py:72 | the quote that is chosen gives the shortest literal, single quotes preferred |
| Quotes.UnescapeQuoted | tools/i18n_wrap_code.py:495-513 | unescaping what js_quote writes between its quotes gives the text back, for every text |
| Quotes.JsUnescapeLoop | tools/i18n_wrap_code.py:454-492 | the loop computes the recursive reading of escapes |
| JsCooked.UnescapeIsCooked | tools/i18n_wrap_code.py:454-492 | js_unescape decodes exactly the texts whose escapes are listed and stand for characters, and as section 12.9.4 of ECMA-262 reads them |
| PercentFormat.UndoubleDouble | tools/i18n_wrap_code.py:250-253 | undoubling percent signs undoes doubling |
| PercentFormat.FormatDoubled | app/i18n_text.py:78-98 | doubled text formats to itself in front of any rest |
| PercentFormat.FormatPlaceholder | app/i18n_text.py:78-98 | a placeholder formats to its value in front of any rest |
| Placeholders.NameFor | tools/i18n_wrap_code.py:241-248 | an expression that has a name keeps it and nothing changes; a new one gets a name not in use, and the arguments bind exactly the names |
| Placeholders.DraftFor | tools/i18n_wrap_code.py:218-249 | the loop gives up exactly on an unreadable part, otherwise names all holes, and only holes, consistently, and gives each new hole the first free name of the series of its own hint |
| FStrings.FStringCall | tools/i18n_wrap_code.py:212-254 | None exactly for values of another kind, expressions on several lines and computed specs; otherwise the call of a consistent naming after the hints |
| FStrings.HoleValue | tools/i18n_wrap_code.py:226-238 | what is written for a hole has the value of the hole, given only what str, repr, ascii and format of any expression mean in Python |
| FStrings.RewritingPreservesMeaning | tools/i18n_wrap_code.py:212-254 | the untranslated rewritten call has the value of the f-string, for all accepted parts and all environments |
| FStrings.PlainHoleIff | tools/i18n_wrap_code.py:233-249 | a plain hole without a line end is rewritten, and the call has its value if and only if formatting without a spec equals str |
| JsTemplates.TemplateCall | tools/i18n_wrap_code.py:516-546 | None exactly when a part is not readable (an escape that is not listed, a brace, an empty or many-line hole) or the message holds markup; otherwise the text of the call of a consistent naming, object literal and all |
| JsTemplates.HasTagIff | tools/i18n_wrap_code.py:542 | what counts as markup: a `<` in front of a letter, a slash or an exclamation mark |
| JsTemplates.ReadIff | tools/i18n_wrap_code.py:522-535 | which texts and holes are read, said by their characters |
| JsTemplates.FillStep | tools/i18n_wrap_code.py:448-451 | one split and join fills one name everywhere and changes nothing else |
| JsTemplates.ShimFills | tools/i18n_wrap_code.py:448-451 | the loop over the properties, in any order, fills all names |
| JsTemplates.ShimSubstitutes | tools/i18n_wrap_code.py:448-451 | for values in which no placeholder begins the shim's sequential replacement is one simultaneous substitution |
| JsTemplates.ValuePreservedIff | tools/i18n_wrap_code.py:516-546 | for such values the message, filled with the pairs, is the value of the literal if and only if no hole is undefined and no raw text has a carriage return |
| JsBraces.SafeIff | tools/i18n_wrap_code.py:448-451 | a value is put in as it is in every rewritten literal if and only if no placeholder begins in it |
| JsBraces.BracesInValuesAreFilledAgain | tools/i18n_wrap_code.py:516-546 | `${x}${y}` with the placeholder of y as the value of x: the call has the literal's value only if y has that same value |
| JsTemplates.RawReturns | tools/i18n_wrap_code.py:454-492 | js_unescape keeps the raw carriage returns that JavaScript turns into line feeds |
| JsLeaves.LeafInContext | tools/i18n_inventory.py:184-291 | inside a longer text a token of an expression is found as in the expression alone if it is closed and no line comment, and runs over the end of the expression otherwise |
| JsObjectProofs.ArgumentEnds | tools/i18n_wrap_code.py:536-546 | from any position of an expression on, the value ends at the comma or brace that was printed behind it if and only if the rest of the expression is closed and balanced by itself |
| JsObjectProofs.ReadsBackIff | tools/i18n_wrap_code.py:536-546 | the text of a call is read back as the call if and only if every pair can be printed |
| JsRewriting.MeaningPreservedIff | tools/i18n_wrap_code.py:516-546 | the text that is written is read as its call and has the value of the literal if and only if no hole is undefined, no raw text has a carriage return and every pair can be printed |
| JsRewriting.TokenKeepsMeaningIff | tools/i18n_wrap_code.py:516-546 | for every template token of closed text, at any depth: the parts that are read spell the token, and the text that is written keeps its meaning under exactly that condition |
| JsRewriting.TokenCall | tools/i18n_wrap_code.py:516-546 | the rewriting of a token yields the text of such a call |
| JsBrokenCalls.ReservedWordBreaks | tools/i18n_wrap_code.py:110-121 | every reserved word of JavaScript that Python does not have is its own name, is printed alone and is not read back |
| JsBrokenCalls.ThisBreaks | tools/i18n_wrap_code.py:536-546 | `${this}`, `${null}` and `${true}` |
| JsBrokenCalls.CommaBreaks | tools/i18n_wrap_code.py:536-546 | `${a, b.c}` |
| JsBrokenCalls.CommentBreaks | tools/i18n_wrap_code.py:529-546 | a hole that ends in a line comment, whose line end is stripped |
| JsBrokenCalls.LeadingZeroBreaks | tools/i18n_wrap_code.py:112-121 | `${_01}` gets the name 01, which is not its own key |
| JsChains.ChainItemsIff | tools/i18n_wrap_code.py:1048-1066 | the pairs taken apart again are those that were printed if and only if no expression holds a comma with a blank behind it |
| JsChains.ChainKeepsMeaningIff | tools/i18n_wrap_code.py:1048-1066 | filling the pairs taken apart gives the value of the literal under exactly this and the earlier condition |
| JsChains.ArgumentsAreSplit | tools/i18n_wrap_code.py:1057-1063 | `${f(a, b)}` is taken apart wrongly |
| JsChains.WriteChain | tools/i18n_wrap_code.py:1055-1065 | the loop writes one link for each pair taken apart |
| JsLinks.LinkReads | tools/i18n_wrap_code.py:1058-1063 | the tokenizer reads a link as a call of `split` with a string whose value is the placeholder and a call of `join` with the expression |
| JsLexer.Lex | tools/i18n_inventory.py:167-292 | the tokenizer terminates on every text and stops between its start and the end |
| JsLexer.Template | tools/i18n_inventory.py:206-231 | the template scanner terminates and moves forward |
| JsLexer.BraceIsOneToken | tools/i18n_inventory.py:272-291 | a brace is always a token of its own |
| JsLexer.LeavesAreSound | tools/i18n_inventory.py:184-291 | tokens are never empty and closed ones stay inside the text |
| JsLexerProofs.LexIsOrdered | tools/i18n_inventory.py:167-292 | tokens of closed text are in order with only white space between them, and a hole ends at the brace that balances it |
| JsLexerProofs.TemplateTiles | tools/i18n_inventory.py:206-231 | the parts of a closed template alternate and tile it; each hole stands between its `${` and its own brace, at any depth |
| JsLexerProofs.ClosedTextNests | tools/i18n_inventory.py:160-164 | the tokens of closed text form a well-nested forest that covers it |
| JsLexerProofs.ClosedTokensNest | tools/i18n_inventory.py:160-164 | the flat token list is start-ordered; a later token lies behind an earlier one or inside one of its holes |
| JsLexerProofs.PartsAreTheTemplate | tools/i18n_inventory.py:206-231 | alternating parts put together are the text between the back quotes |
| JsLexerProofs.TemplatesAreTheirParts | tools/i18n_inventory.py:206-231 | this holds for every template token of closed text |
| JsLexerProofs.QuotedIsOneToken | tools/i18n_inventory.py:196-205 | wherever js_quote(s) stands, it is read as one closed string token |
| JsLexerProofs.QuoteRoundTrip | tools/i18n_wrap_code.py:454-513 | lexing js_quote(s) gives one token over the whole text, and unescaping its body gives s |
| JsTokenizer.ScanString | tools/i18n_inventory.py:196-205 | the string loop stops where the string ends |
| JsTokenizer.ScanRegexBody | tools/i18n_inventory.py:236-253 | the regular expression loop stops at the closing slash outside a class |
| JsTokenizer.PrevSig | tools/i18n_inventory.py:173-177 | finds the last token that is not a comment |
| JsTokenizer.ScanLeaf | tools/i18n_inventory.py:184-291 | kind and end of any token but a template |
| JsTokenizer.ScanTemplate | tools/i18n_inventory.py:206-231 | parts, inner tokens and end of a template |
| JsTokenizer.JsTok | tools/i18n_inventory.py:167-292 | the loops list exactly the tokens of the recursive definition, and each of them is read as the laws on tokens say |
| JsTokenizer.Tokenize | tools/i18n_inventory.py:160-164 | the whole text |
| JsTokenLaws.SlashIsRead | tools/i18n_inventory.py:232-236 | a slash starts a regular expression at the start and where an operand may follow, and is punctuation elsewhere |
| JsTokenLaws.LeafReaches | tools/i18n_inventory.py:184-291 | how far each token reaches, by its first characters: comments, strings, regular expressions, longest names, numbers and punctuators of ECMA-262 |
| JsTokenLaws.LeafClosedIff | tools/i18n_inventory.py:184-291 | which tokens have their own end in the text: exactly those whose closing mark stands where it should |
| JsClosed.ClosedIff | tools/i18n_inventory.py:167-292 | a text is closed, as the nesting laws need it, exactly when each of its tokens has its own end: also each hole its brace and each template its back quote |
| JsTokenLaws.ListsAreRead | tools/i18n_inventory.py:167-292 | both hold of every token of every call, with the tokens listed before it |
| JinjaRegions.RegionsTile | tools/i18n_inventory.py:546-605 | regions follow each other without gap or overlap, tags start with their brackets, and data outside raw blocks holds no tag |
| JinjaRegions.RegionsAreTheSource | tools/i18n_inventory.py:546-605 | put together the regions are the source |
| JinjaTags.RegionsRead | tools/i18n_inventory.py:546-605 | every tag ends at its first closing brackets outside strings, a comment at its first; the inside is what stands between, without the signs; data holds no opening brackets, and raw text goes up to the first endraw |
| JinjaRegions.FailsIff | tools/i18n_inventory.py:569-591 | IndexError is raised if and only if a tag that is reached is scanned past the end of the text |
| JinjaStrings.StopsPastIff | tools/i18n_inventory.py:569-583 | that is the case if and only if the tag comes to a string that is never closed and ends in an odd run of backslashes |
| JinjaStrings.FailsIffDangles | tools/i18n_inventory.py:569-591 | so IndexError is raised if and only if such a tag is reached |
| JinjaStrings.OpenStringFails | tools/i18n_inventory.py:569-591 | a template of four characters on which this happens |
| JinjaRegions.SucceedsWithoutFinalBackslash | tools/i18n_inventory.py:569-591 | no failure on sources that do not end in a backslash |
| JinjaRegions.ScanTag | tools/i18n_inventory.py:570-583 | the loop over one tag, with strings and escapes |
| JinjaRegions.SplitRegions | tools/i18n_inventory.py:546-605 | the loop yields exactly those regions and terminates |
| TemplateMask.HideTags | tools/i18n_inventory.py:724-742 | tags are overwritten in place, line ends excepted |
| TemplateMask.CollectTrans | tools/i18n_inventory.py:733-741 | the ranges of trans blocks; fails if and only if a block holds nothing but odd white space |
| TemplateMask.TransFailsIff | tools/i18n_inventory.py:734-735 | which blocks have no first word |
| TemplateMask.HideTrans | tools/i18n_inventory.py:744-750 | trans blocks become blanks, line ends excepted |
| TemplateMask.Mask | tools/i18n_inventory.py:719-750 | there is a mask if and only if the splitter succeeds and every block has a word or is empty; it has the length and the line ends of the source and the right character everywhere |
| JinjaTrans.RangesAreTrans | tools/i18n_inventory.py:733-741 | the hidden ranges are exactly those from a trans tag to the next endtrans tag with no other between |
| JinjaTrans.MaskIsRead | tools/i18n_inventory.py:719-750 | the mask, character by character, by the trans blocks and tags of the text |
| TemplateMask.FormFeedBlockFails | tools/i18n_inventory.py:734-735 | a block with a form feed has no mask although the splitter succeeds |
| TemplateMask.StartsCountLines | tools/i18n_inventory.py:116-127 | line starts up to a position are one more than the line ends before it |
| TemplateMask.LineCache.LineOf | tools/i18n_inventory.py:116-127 | the line number is one plus the line ends before the position, whatever was cached |
| TemplateMask.MaskKeepsLines | tools/i18n_inventory.py:719-750 | a position has the same line number in source and mask |
| ProtectRestore.ReplaceIsStage | tools/i18n_wrap.py:70-73 | replacing one placeholder removes exactly the stretches between NUL characters that spell it, from the left |
| ProtectRestore.Restore | tools/i18n_wrap.py:70-73 | the loop over the store |
| ProtectRestore.RestoreUndoesProtectIff | tools/i18n_wrap.py:59-73 | restoring undoes protecting if and only if no gap between two regions spells an earlier number between U+0001 characters |
| ProtectRestore.NoDeceptionWithoutSoh | tools/i18n_wrap.py:56-73 | this never happens without U+0001 in the source |
| ProtectRestore.ADeceptiveSource | tools/i18n_wrap.py:59-73 | a source, for any three regions, on which restoring fails |
| WrapSource.GapsAndRegions | tools/i18n_wrap.py:59-67 | gaps and regions interleaved are the source |
| WrapSource.Protect | tools/i18n_wrap.py:59-67 | the text with numbered placeholders and the list of regions |
| WrapSource.PassKeepsPlaceholders | tools/i18n_wrap.py:102-139 | a wrapping pass changes gaps only; placeholders stay, in order |
| WrapSource.PassDeceivesNoMore | tools/i18n_wrap.py:102-139 | a pass makes no gap read as a placeholder |
| WrapPasses.TextPiecesOk | tools/i18n_wrap.py:102-121 | the text pass wraps no literal that holds part of a placeholder |
| WrapPasses.TextPiecesOld | tools/i18n_wrap.py:102-121 | its matches and the kept characters are the text |
| WrapPasses.AttrPiecesOk | tools/i18n_wrap.py:124-139 | the attribute pass wraps no literal that holds part of a placeholder |
| WrapPasses.AttrPiecesOld | tools/i18n_wrap.py:124-139 | its matches and the kept characters are the text |
| WrapSource.LiteralIsCall | tools/i18n_wrap.py:76-93 | a literal is wrapped exactly when it is plain and leaves a kind of quote, in a call with it between such quotes |
| WrapLaws.TextPassWrapsIff | tools/i18n_wrap.py:96-121 | a wrapped literal stands where, and only where, text between tags starts whose stripped form is Arabic in part, plain and quotable; its white space stays |
| WrapLaws.AttrPassWrapsIff | tools/i18n_wrap.py:97-139 | the same for the values of listed attributes that the search comes to |
| WrapCalls.TagEndsIff | tools/i18n_wrap.py:76-139 | on any page the expression of a wrapped literal ends at its own brackets if and only if the literal does not end in an odd run of backslashes |
| WrapPasses.PassesSurvive | tools/i18n_wrap.py:142-147 | all protected regions come through both passes unchanged and in place, and gaps change only by genuine wrapping |
| WrapPasses.NothingWrapped | tools/i18n_wrap.py:142-147 | a source in which nothing is wrapped comes back as it was |
| WrapPasses.Rewrite | tools/i18n_wrap.py:142-147 | the whole of wrap_source has these properties |
| PoText.EscapeIsPerCharacter | tools/i18n_master.py:255-257 | the five replacements in a row act per character |
| PoText.UnescapeUndoesEscape | tools/i18n_master.py:240-257 | unescaping undoes escaping, for every text |
| PoText.UnescapeLoop | tools/i18n_master.py:240-252 | the loop computes the recursive reading |
| PoText.KindOfField | tools/i18n_master.py:313-318 | a written field line is recognised with its name and text |
| PoText.KindOfMore | tools/i18n_master.py:319-321 | a written continuation is recognised with its text |
| PoLines.FieldIff | tools/i18n_master.py:313-318 | a line is a field exactly when it is a field name (with a plural number in brackets or not), white space, a quoted text and nothing but white space |
| PoLines.MoreIff | tools/i18n_master.py:319-321 | a line is a continuation exactly when it is a quoted text and nothing but white space |
| PoLines.UnescapeIff | tools/i18n_master.py:240-252 | an escaped text stands for t exactly when its units do: a backslash and n, t, r, quote or backslash for one character, anything else for itself |
| PoLines.FieldIsWritten | tools/i18n_master.py:260-268 | a field is one line, or the lines of the value one by one if it is longer than 70 characters or has a line end before its end |
| PoLines.NewNotes | tools/i18n_master.py:374-384 | the comments of a new entry: its place if it has one, `python-format` if it is a format, in front of everything else |
| PoEntry.FieldLoop | tools/i18n_master.py:306-322 | the loop reads the last value of a field with its continuations |
| PoEntry.RunField | tools/i18n_master.py:260-268 | a field as `_po_field` writes it, on one line or many, is read back, and other fields keep their value |
| PoEntry.FilterKeepsKey | tools/i18n_master.py:348-364 | taking out flags and translation leaves context and message of a well-formed entry |
| PoEntry.FilterLoop | tools/i18n_master.py:350-363 | the loop that takes them out |
| PoEntry.WithMsgstrOk | tools/i18n_master.py:348-365 | a replaced translation is read back; the entry keeps its key and stays well formed |
| PoFlags.WithMsgstrContent | tools/i18n_master.py:347-365 | a replaced translation takes fuzzy out of the flags; every other flag and every line that is neither flags nor translation is still there, in order |
| PoFlags.NewBlockNotFuzzy | tools/i18n_master.py:374-384 | a new entry is not fuzzy |
| PoEntry.NewBlockOk | tools/i18n_master.py:374-384 | a new entry has the key and value it was made for, and no key when its message is empty |
| Paragraphs.FindSpans | tools/i18n_master.py:284-294 | the loop finds exactly the maximal runs of non-blank lines |
| Paragraphs.SpansAreBlocks | tools/i18n_master.py:284-294 | the spans cut out the blocks |
| Paragraphs.BlocksOfRebuild | tools/i18n_master.py:390-394 | lines with replaced blocks have exactly the new blocks |
| Paragraphs.SpliceBlocks | tools/i18n_master.py:390-394 | splicing from the last to the first replaces every block in its place |
| Paragraphs.AppendBlocks | tools/i18n_master.py:395-401 | trailing empty lines go, each new block follows an empty line |
| Paragraphs.BlocksWithAppendix | tools/i18n_master.py:395-401 | appending adds exactly the new blocks |
| Paragraphs.UntouchedSurvives | tools/i18n_master.py:389-401 | every line outside the replaced blocks is still there |
| Paragraphs.SurvivorsStayInOrder | tools/i18n_master.py:389-401 | surviving lines keep their order |
| EntryStore.SetIsGood | tools/i18n_master.py:367-387 | `set` keeps the tables consistent |
| EntryStore.SetThenGet | tools/i18n_master.py:332-387 | `get` after `set` gives the new value for that key and the old one for every other |
| EntryStore.FindIsLast | tools/i18n_master.py:332-341 | looking up in the tables is finding the last entry with the key in file order |
| EntryStore.ReloadKeepsAnswers | tools/i18n_master.py:332-345 | the saved entries, loaded again, give the same answers |
| EntryStore.RunsAnswer | tools/i18n_master.py:367-387 | after any run of `set` calls: the last value per key, the old value otherwise |
| EntryStore.ImportAnswers | tools/i18n_master.py:452-457 | setting only what differs gives the same answers |
| EntryStore.ReimportChangesIff | tools/i18n_master.py:452-457 | a second import sets nothing if and only if no key has two values |
| PoFile.LinesOfText | tools/i18n_master.py:279-282 | reading the saved text gives the saved lines, with either line end |
| PoFile.SavedBlocks | tools/i18n_master.py:389-405 | the saved lines have exactly the entries as they stand |
| PoFile.SavedAnswers | tools/i18n_master.py:277-405 | a saved file answers as the tables did and can be edited again |
| PoFile.SavedFileAnswers | tools/i18n_master.py:277-405 | any run of `set`, then `save` and reload: the last value set per key, the old value for every other key |
| PoUsed.SavedFileIsUsed | tools/i18n_master.py:150-162 | after any run of `set`, `save` and reload, readers that leave fuzzy entries out use the last value set for a key, and for other keys what they used before |
| PoUsed.SavedFileSays | tools/i18n_master.py:347-405 | and each entry that was there still says everything else it said |
| PoFile.LineSurvives | tools/i18n_master.py:389-405 | a line outside replaced entries survives a save, except empty lines at the end before appended entries |
| PoFile.TextOfLinesIff | tools/i18n_master.py:279-282 | writing the lines of a file with the line end found in it gives the file back if and only if its line ends are all of one kind |
| PoFile.UneditedSaveIff | tools/i18n_master.py:279-405 | so does saving an unedited file |
| PoFile.PoFile.constructor | tools/i18n_master.py:277-303 | lines, spans and index of a loaded file |
| PoFile.PoFile.Lookup | tools/i18n_master.py:332-345 | `get` answers from the tables |
| PoFile.PoFile.Assign | tools/i18n_master.py:367-387 | `set` changes the tables as the functional `set` does, and nothing else of the file |
| PoFile.PoFile.Save | tools/i18n_master.py:389-405 | the text of the rebuilt lines with the file's line ends |
| PoFile.EditFile | tools/i18n_master.py:271-405 | the class, end to end: load, set any number of times, save, load, get |
| MasterImport.DoublingIsStable | tools/i18n_master.py:51-51 | doubling lone percent signs is a fixed point after one pass |
| MasterImport.AcceptedIsNotBlank | tools/i18n_master.py:216-235 | an accepted translation is not blank and has the placeholders of its message |
| MasterImport.FixIsIdempotentIff | tools/i18n_master.py:216-235 | an accepted translation is accepted again unchanged if and only if the text had no CR CR LF |
| MasterImport.TwoReturnsAreFixedTwice | tools/i18n_master.py:216-235 | the smallest text that is changed twice |
| MasterImport.ImportOne | tools/i18n_master.py:452-457 | one accepted row sets the translation unless it is there already |
| MasterImport.ImportRows | tools/i18n_master.py:428-457 | the loop over the rows, and whether the file has to be saved |
| MasterRows.NormalisedIff | tools/i18n_master.py:414-414 | two messages are the same once normalised if and only if they have the same words |
| MasterRows.ResolveIff | tools/i18n_master.py:429-437 | a row is about its own message, or the only one with its context and words |
| MasterRows.FixIff | tools/i18n_master.py:216-235 | a cell is accepted, with line ends unified and lone percent signs doubled, exactly when it is not blank and passes the checks |
| MasterRows.AcceptsIff | tools/i18n_master.py:428-456 | exactly which call of `set` a row asks for |
| MasterRows.ImportedFromRows | tools/i18n_master.py:428-460 | after import and save each message has the translation of the last row that asks for one, or the one it had |
| MasterRows.ImportedIsUsedIff | tools/i18n_master.py:452-457 | readers use it if and only if they did before or the import gave the message another translation than it had |
| MasterImport.ImportNeverBlanks | tools/i18n_master.py:428-460 | no import turns a translation blank |
| MasterImport.SecondImportAnswers | tools/i18n_master.py:428-460 | importing the same table again into the saved file gives the same answers |
| MasterImport.SecondImportChangesIff | tools/i18n_master.py:428-460 | it writes nothing if and only if the table does not give two translations for one message |

## Left out

- Token lookup, password checks and permission tables behind `enforce_api_auth`, and `rbac_denial_status`: the credential and the guard's answer are parameters.
- `default_config` reading the environment, a missing customer id, `ensure_schema` and the `assigned_at` column of the allocator; SHA-256 is an arbitrary function; IPv6 supernets (the original rejects them) cannot be expressed.
- FixedIpSystem.PlanFor: lists the candidate addresses the original loop computes one by one; numerals with leading zeros are rejected, as Python does since 3.9.5.
- RateLimiter.Limiter.Check: the clock is a real number given by the caller, and the lock is the atomicity of the method; eviction of idle keys does not exist in the original either.
- RefusedForms.RewriteForms: the matches of the form pattern and the server's decision about each action are given as a list; the wording of the inserted note is a constant of the model.
- RefusedForms.DisableExternalSubmits: the matches of the button pattern are given as a list, with whether the tag mentions `disabled`.
- SubmitMemo.Request.CanSubmit: upper-casing is ASCII only, and the rule table is a function from names to names; exceptions of the guard count as permission, as in the original.
- Identifiers.CleanName: the identifier that the three regular expressions find at the end of an expression is a parameter.
- Identifiers.FreshName: the first test of the loop condition is written as an `if` in front of the loop.
- FStrings.FStringCall: expressions are their unparsed texts and are pure; `ast` itself is not modelled, and formatting covers `%%` and `%(name)s` only.
- FStrings.FStringCall: the message and the keyword arguments are given as such; that they are printed as a call of `_tr`, and that the file is parsed again before it is written, is not modelled.
- JsObjects.ReadCall: reads with the tokenizer of the tools, so a line comment ends at a line feed only and expressions are not parsed; words that are reserved in some contexts only (`await`, `yield`, `let`) count as identifiers, and what number a numeric key stands for is a parameter.
- JsTemplates.TemplateCall: the place where the text is put (a tag in front of the literal, a word right before it) is not modelled; a value is undefined or known by its string; symbols, side effects of string conversion and inherited enumerable properties are not modelled.
- JsChains.WriteChain: the message in front of the chain is given (it is a Jinja expression), and `split` and `join` are taken to do what the step of the shim does; the pattern of line 1052 is taken to find what stands between the braces.
- Quotes.JsUnescapeLoop: code points that are not Unicode scalar values are reported as out of range, where Python makes a lone surrogate or raises.
- JsLexer.LeafAt: `isalpha` and `isalnum` beyond ASCII are arbitrary functions.
- `js_str_html_parts`, `js_tpl_html`, `_jinja_chain`, `_html_scan` and the classifiers (`classify_js_tokens`, `classify_jinja_expr`, `_classify_py`): lists of heuristic rules without a specification of their own.
- TemplateMask.LineCache.LineOf: the cache compares texts where the original compares object identity.
- WrapSource.Protect: the matches of the protecting pattern are given as a list of disjoint ranges.
- WrapCalls.TagEndsIff: how Jinja reads backslashes inside the literal is not modelled beyond where the string ends.
- WrapPasses.Rewrite: where an attribute name and its equals sign stand is a parameter; the Jinja parse of the result in `process_file` is not modelled.
- PoFile.SavedFileAnswers: entries with lines that are neither comment, field nor continuation, and lines that end in a lone carriage return, are excluded; digits in `msgstr[n]` are ASCII.
- PoFile.PoFile.Save: gives the text that is written; file access is not modelled.
- MasterImport.ImportRows: one locale at a time (the four do not interact); CSV reading, the statistics, the messages and the catalogue written by Babel are not modelled; the placeholder patterns and the trial formatting of `fix_translation` are arbitrary functions.
- Rendering, screenshot, audit and seed scripts, Flask wiring, security headers, the web interface, the RADIUS services, webhooks and `tools/i18n_merge_shards.py`, `tools/i18n_extract.py`: easy or without logic of their own.
