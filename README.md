# Simple Icons website: a verified model of its core logic

This project models the logic of the Simple Icons website (a Rust/Leptos
single-page application, plus one TypeScript build script) that can be
stated without the browser. Each part is proved against a specification.

- **SVG path linter.** The character rules and their fixers, in two forms:
  - the typed errors of the website's linter;
  - the string-message errors of the older SDK linter, which adds the
    precision rule and the combined `lint_path`.
- **SDK helpers.** Brand title to slug, SVG to path, and colour
  normalisation.
- **Preview generator.** Hex-colour validation, the contrast colour, colour
  parsing in the colour field and the caret remapping after an edit, the
  brand-suggestion state and the split of search results, `truncate`, the
  initial icon, and the badge's gradient-id rewriting.
- **SVG builders** with XML escaping of the title.
- **Icon grid.** Its paging buffer (`load_next_icons`) and the initial
  icons, and the first page of search results and its extension.
- **Controls and page state:**
  - the order modes and `sort_icons`;
  - the order control, including re-sorting the grid and the sort buttons;
  - layouts, modals and download types, with their parse/print round
    trips;
  - the header's toggles;
  - the keyboard-shortcut key buffer.
- **Icon data:** `plain_aliases` and the localized title of an icon.
- **Deprecations.** Extracting deprecated and renamed icons from already
  parsed milestone, pull-request and file data, with records kept unique by
  slug.
- **Statistics:** counting the library and extension rows of the Simple
  Icons README.

Code that loops or updates state is modelled as Dafny methods with loops,
or as classes whose methods change fields. Each is proved equal to a
specification function, and the properties the code promises are lemmas
about those functions.

Conventions:

- **Strings** are `seq<char>`.
- **Byte lengths** of Rust `&str` are computed from UTF-8 widths
  (`Strings.Utf8Len`) where they matter (`truncate`, `String::truncate`,
  `normalize_color`'s `len()` and `[..6]`). Where the model counts
  characters instead, the text is known to be ASCII (hex digits, decimal
  numbers) and the two lengths coincide.
- **Panics** (an `unwrap` on `None`, or slicing inside a character) are
  modelled as a `None` result.
- **Browser-provided inputs** become parameters:
  - search results (fast-fuzzy) are a sequence of indices into the icon list;
  - the random shuffle is a function known to permute its input;
  - `localStorage` and URL parameters are fields or parameters.

## Model

| member | source | states |
|---|---|---|
| PathLint.MovetoErrors | libs/simple-icons/src/lint.rs:169-178 | at most one moveto error, present exactly when the path is non-empty and does not start with 'M' or 'm'; it carries the first character, range (0,1) and the moveto fixer |
| PathLint.InvalidUpToSound | libs/simple-icons/src/lint.rs:180-191 | every invalid-character error names an index whose character is outside the path alphabet, with range (i,i+1) and the removing fixer |
| PathLint.InvalidUpToOrdered | libs/simple-icons/src/lint.rs:180-191 | invalid-character errors come in strictly increasing index order |
| PathLint.InvalidUpToComplete | libs/simple-icons/src/lint.rs:180-191 | every character outside the path alphabet is reported |
| PathLint.PathFormat | libs/simple-icons/src/lint.rs:166-194 | the loop returns the moveto error followed by the invalid-character errors |
| PathLint.PathFormatCleanIff | libs/simple-icons/src/lint.rs:166-194 | no errors if and only if the path is empty or starts with M/m, and every character is a path character |
| PathLint.NegativeZerosSound | libs/simple-icons/src/lint.rs:218-236 | every negative-zero error is at a '-' followed by '0' or by the end, with range (i,i+2) |
| PathLint.NegativeZerosOrdered | libs/simple-icons/src/lint.rs:218-236 | negative-zero errors are in increasing index order |
| PathLint.NegativeZerosComplete | libs/simple-icons/src/lint.rs:218-236 | every '-' followed by '0' or by the end is reported |
| PathLint.NegativeZeros | libs/simple-icons/src/lint.rs:218-236 | the loop returns exactly the negative-zero errors in index order |
| PathLint.NegativeZeroReported | libs/simple-icons/src/lint.rs:220-233 | a '-' before '0' or at the end is flagged with range (i,i+2) |
| PathLint.LintPathCharacters | libs/simple-icons/src/lint.rs:533-537 | the path_format errors followed by the negative_zeros errors, and nothing else |
| PathLint.FixRemovingCharactersInRange | libs/simple-icons/src/lint.rs:127-136 | the range is returned unchanged and the new path drops exactly the characters with index in [start,end) |
| PathLint.RemoveInvalidCharacter | libs/simple-icons/src/lint.rs:127-136 | fixing an invalid-character error removes that one character and keeps the rest in order |
| PathLint.FixPathNotStartsWithMovetoCommand | libs/simple-icons/src/lint.rs:140-152 | an empty path panics (None); otherwise the range is (0,1) and the result starts with 'M': a letter is replaced, anything else gets 'M' prepended |
| PathLint.MovetoFixClearsError | libs/simple-icons/src/lint.rs:140-152 | after the moveto fix, path_format reports no moveto error |
| PathLint.FixNegativeZero | libs/simple-icons/src/lint.rs:197-215 | the loop replaces the character at range.start by " 0" after a digit or "0" otherwise, drops the rest of the range, and returns the range unchanged |
| PathLint.NegativeZeroSpan | libs/simple-icons/src/lint.rs:218-236 | a flagged span contains exactly one '-' |
| PathLint.NegativeZeroReplacementHasNoMinus | libs/simple-icons/src/lint.rs:202-206 | the replacement text contains no '-' |
| PathLint.NegativeZeroFixRemovesMinus | libs/simple-icons/src/lint.rs:197-215 | fixing a reported negative zero removes exactly one '-' from the path |
| SdkLint.Render | simple-icons/src/sdk/lint.rs:72-105 | a string-message error keeps the typed error's range and fixer |
| SdkLint.RenderAll | simple-icons/src/sdk/lint.rs:72-105 | rendering keeps the number and order of the errors |
| SdkLint.RenderAllAppend | simple-icons/src/sdk/lint.rs:230-241 | rendering distributes over concatenation, so the combined list renders part by part |
| SdkLint.SdkPathFormat | simple-icons/src/sdk/lint.rs:72-105 | the SDK path_format finds the same errors, with the same ranges and fixers, as the typed linter |
| SdkLint.SdkNegativeZeros | simple-icons/src/sdk/lint.rs:129-145 | the SDK negative_zeros finds the same errors as the typed linter |
| SdkLint.SdkMatchesTyped | simple-icons/src/sdk/lint.rs:72-145 | each SDK error has the typed error's range, fixer and message text, position by position |
| SdkLint.SdkNegativeZeroReported | simple-icons/src/sdk/lint.rs:129-145 | a '-' before '0' or at the end gives the message "Found \"-0\" at index i" with range (i,i+2) and the negative-zero fixer |
| SdkLint.IntegralNumberCountedAsDecimals | simple-icons/src/sdk/lint.rs:15-25 | as written, the integral number 123456 is counted as having 6 decimals; it has none |
| SdkLint.DecimalsAfterPoint | simple-icons/src/sdk/lint.rs:15-25 | with a decimal point, the count is the number of digits after it |
| SdkLint.MaxDecimals | simple-icons/src/sdk/lint.rs:15-25 | the result bounds the count of every number, as written (digits after the last '.', or all digits of an integral number), and is attained by one of them; 0 for no numbers |
| SdkLint.GetMaxDecimalsInNumbers | simple-icons/src/sdk/lint.rs:15-25 | the loop returns the maximum count, as written, over the numbers |
| SdkLint.MaxDecimalsUnique | simple-icons/src/sdk/lint.rs:15-25 | an upper bound that is attained is that maximum |
| SdkLint.IconPrecision | simple-icons/src/sdk/lint.rs:177-201 | the loop stops at the first segment with a number counted, as written, as having more than 5 decimals |
| SdkLint.PrecisionErrorsFromFirst | simple-icons/src/sdk/lint.rs:180-197 | the only error is the one for the first segment whose count, as written, exceeds 5, with that count in the message |
| SdkLint.PrecisionAtMostOne | simple-icons/src/sdk/lint.rs:177-201 | at most one precision error; none if and only if every segment's count, as written, is at most 5 |
| SdkLint.IntegralArgumentReported | simple-icons/src/sdk/lint.rs:177-201 | as written, a segment with the integral argument 123456 draws the error "currently 6" |
| SdkLint.LintPath | simple-icons/src/sdk/lint.rs:230-241 | format, negative-zero, size, precision and centering errors, concatenated in that order |
| Sdk.TitleToSlugReplaceChars | libs/simple-icons-sdk/src/lib.rs:9-37 | the loop replaces each character by its slug piece, in order |
| Sdk.TitleToSlug | libs/simple-icons-sdk/src/lib.rs:40-44 | the slug is the lower-cased title with characters replaced, and consists only of ASCII lower-case letters and digits |
| Sdk.SlugPieceAscii | libs/simple-icons-sdk/src/lib.rs:12-33 | letters and digits are kept, '+' becomes "plus", '.' "dot", '&' "and", and any other ASCII character is dropped |
| Sdk.ReplaceCharsIsSlug | libs/simple-icons-sdk/src/lib.rs:9-37 | replacing the characters of a string without upper-case letters gives a slug |
| Sdk.SlugFixed | libs/simple-icons-sdk/src/lib.rs:40-44 | a slug is its own slug |
| Sdk.SvgToPath | libs/simple-icons-sdk/src/lib.rs:47-55 | panics (None) exactly when the SVG has no ` d="`; the path contains no '"' |
| Sdk.SvgToPathOf | libs/simple-icons-sdk/src/lib.rs:47-55 | the path is the text between the first ` d="` and the next '"' |
| Sdk.StrippedColor | libs/simple-icons-sdk/src/lib.rs:59 | the stripped colour has no '#' |
| Sdk.NormalizeColor | libs/simple-icons-sdk/src/lib.rs:58-75 | the method computes the normalised colour, choosing its case by the byte length |
| Sdk.NormalizedColorShape | libs/simple-icons-sdk/src/lib.rs:58-75 | panics (None) exactly when at most 5 bytes hold fewer than 3 characters, or a longer colour has no character boundary at byte 6; otherwise no '#' and no lower-case letter, 6 characters when doubled and 6 bytes when kept or cut |
| Sdk.NormalizedColorCases | libs/simple-icons-sdk/src/lib.rs:61-73 | for ASCII input: fewer than 3 characters panic; 3 to 5: each of the first three doubled; 6: kept; 7 or more: the first 6; the result has 6 characters |
| Sdk.NormalizeColorIdempotent | libs/simple-icons-sdk/src/lib.rs:58-75 | normalising a normalised ASCII colour changes nothing |
| Sdk.StrippedColorAscii | libs/simple-icons-sdk/src/lib.rs:59 | stripping and upper-casing ASCII text keeps it ASCII, so its bytes and characters coincide |
| Sdk.NormalizeColorNotIdempotentOutsideAscii | libs/simple-icons-sdk/src/lib.rs:58-75 | "aéb" normalises to "AAééBB", which normalises again to "AAéé" |
| PreviewHelpers.IsValidHexColor | components/preview-generator/src/helpers.rs:5-15 | true if and only if the length is 3 or 6 and every character is an ASCII hex digit |
| PreviewHelpers.HashNeverValid | components/preview-generator/src/helpers.rs:8-12 | a value containing '#' is never valid |
| PreviewHelpers.ValidHexColorIgnoresCase | components/preview-generator/src/helpers.rs:11 | upper- and lower-case hex digits are accepted alike |
| PreviewHelpers.ValidHexColorNormalizes | components/preview-generator/src/helpers.rs:19-23 | a valid colour can always be normalised (normalize_color does not panic on it) |
| PreviewHelpers.ContrastColorFor | components/preview-generator/src/helpers.rs:18-25 | always "black" or "white"; "black" for an invalid colour; otherwise "black" exactly when the normalised colour is light |
| PreviewInputs.ParseU8 | components/preview-generator/src/inputs.rs:38-40 | a parsed component is below 256 |
| PreviewInputs.Hex2 | components/preview-generator/src/inputs.rs:42 | two upper-case hex digits |
| PreviewInputs.Hex2Decodes | components/preview-generator/src/inputs.rs:42 | the two digits encode the component |
| PreviewInputs.ParseColorToHexSound | components/preview-generator/src/inputs.rs:19-47 | a parsed colour is upper-case hex, with 6 digits unless it came from the '#' form |
| PreviewInputs.ParseHashHex | components/preview-generator/src/inputs.rs:23-28 | "#" followed by hex digits parses to those digits upper-cased |
| PreviewInputs.ParseRgbSound | components/preview-generator/src/inputs.rs:30-43 | an rgb()/rgba() result is 6 upper-case hex digits |
| PreviewInputs.ParseRgbSomeIff | components/preview-generator/src/inputs.rs:30-46 | rgb()/rgba() parses exactly when both parentheses are found and there are at least 3 parts whose first three are u8 numbers |
| PreviewInputs.ParseRgbTriple | components/preview-generator/src/inputs.rs:30-43 | rgb(r,g,b) with u8 components gives the two hex digits of r, then of g, then of b |
| PreviewInputs.ParseRgbOfDigits | components/preview-generator/src/inputs.rs:35-46 | for digit components, any component that is not a u8 gives None |
| PreviewInputs.ParseColorOtherSyntax | components/preview-generator/src/inputs.rs:45-46 | input that is neither '#…' nor rgb(/rgba( gives None |
| PreviewInputs.NormalizedColorValue | components/preview-generator/src/inputs.rs:62-71 | the field value is at most 6 bytes and never contains '#' |
| PreviewInputs.NormalizedParsedColor | components/preview-generator/src/inputs.rs:62-66 | a parsed colour shows as its first six digits |
| PreviewInputs.RemapCaret | components/preview-generator/src/inputs.rs:75-99 | the caret moves back by the '#' before it and is clamped to the new length |
| PreviewInputs.RemapCaretMonotone | components/preview-generator/src/inputs.rs:75-99 | remapping keeps the selection start at or before its end |
| PreviewInputs.RemapCaretWithoutHashes | components/preview-generator/src/inputs.rs:75-99 | without '#' the caret is only clamped |
| PreviewInputs.BrandSuggestionsState.constructor | components/preview-generator/src/inputs.rs:393-405 | empty lists and input, both flags off |
| PreviewInputs.BrandSuggestionsState.OnInput | components/preview-generator/src/inputs.rs:451-468 | stores the input; the two lists are the search matches other than the current brand, in order, the first at most 6 of them; suggestions show exactly when the input is non-empty, and "more" is hidden |
| PreviewInputs.BrandSuggestionsState.OnFocus | components/preview-generator/src/inputs.rs:469-480 | stores the input; the two lists are the search matches other than the current brand, in order, the first at most 6 of them; shows suggestions and keeps the "more" flag |
| PreviewInputs.BrandSuggestionsState.OnClickOutside | components/preview-generator/src/inputs.rs:433-438 | both flags off, nothing else changed |
| PreviewInputs.BrandSuggestionsState.OnMoreClick | components/preview-generator/src/inputs.rs:524-541 | both flags on; if the "more" button was visible, the extra suggestions now show |
| PreviewInputs.BrandSuggestionsState.OnSuggestionClick | components/preview-generator/src/inputs.rs:572-577 | both flags off, nothing else changed |
| PreviewInputs.MoreImpliesShown | components/preview-generator/src/inputs.rs:411-420 | the extra suggestions show only when the suggestions show |
| PreviewInputs.SearchBrandSuggestions | components/preview-generator/src/inputs.rs:606-630 | initial ++ more is the search results without the current slug, in order, and initial takes the first 6 |
| PreviewInputs.CandidatesSpec | components/preview-generator/src/inputs.rs:617-619 | no suggestion has the current slug, and every other result is suggested |
| GridTypes.Added | components/grid/types/src/lib.rs:43-51 | one load adds between 1 and per_page icons while some remain, and none otherwise |
| GridTypes.IconsGrid.constructor | components/grid/types/src/lib.rs:21-38 | the grid holds the initial icons and loaded icons |
| GridTypes.IconsGrid.LoadNextIcons | components/grid/types/src/lib.rs:40-53 | icons are untouched and loaded icons become the next-loaded sequence |
| GridTypes.LoadKeepsPrefix | components/grid/types/src/lib.rs:42-52 | loaded icons stay a prefix of the icons if they were one |
| GridTypes.LoadStopsAtBoundary | components/grid/types/src/lib.rs:43-51 | no-op when all are loaded; otherwise adds per_page − len mod per_page icons, capped by those remaining, and stops at a page boundary or the end |
| GridTypes.LoadTwice | components/grid/types/src/lib.rs:40-53 | two loads from a page boundary add two full pages |
| GridTypes.BoundaryIsMultiple | components/grid/types/src/lib.rs:49 | the stopping length is a multiple of per_page above the current length |
| GridTypes.NextBoundaryFirst | components/grid/types/src/lib.rs:49 | it is the first such multiple |
| GridTypes.InitialIcons | components/grid/types/src/lib.rs:60-80 | computes the initial icons and loaded icons |
| GridTypes.InitialIconsFirstPage | components/grid/types/src/lib.rs:66-79 | empty search: the icons are returned unchanged (the sorted copy is discarded); otherwise the search results; loaded is their first min(per_page, n) |
| Search.IconsOf | components/controls/search/src/lib.rs:55-56 | each icon is ICONS[order_alpha] of its result, in result order |
| Search.PageLength | components/controls/search/src/lib.rs:53-59 | the page holds min(len, per_page) results when per_page ≥ 1, and at least one when there are results |
| Search.NewDisplayedIcons | components/controls/search/src/lib.rs:47-63 | the loop returns the icons of the first page of results |
| Search.ExtendNewIcons | components/controls/search/src/lib.rs:65-78 | appends the icons of results[per_page..] only when there are more than per_page results |
| Search.SearchIconsAndReturnsFirstPage | components/controls/search/src/lib.rs:22-45 | returns the full list and the first page |
| Search.FirstPageSplitsResults | components/controls/search/src/lib.rs:22-45 | the full list is every result in order and the displayed icons are its first min(len, per_page) |
| Search.ZeroPageRepeatsFirst | components/controls/search/src/lib.rs:53-76 | with per_page 0 the first result is displayed and appears twice in the full list |
| OrderTypes.VariantFromStr | components/controls/order-types/src/lib.rs:16-27 | the five known names give their variant; any other string gives SearchMatch |
| OrderTypes.VariantRoundTrip | components/controls/order-types/src/lib.rs:16-40 | parsing a variant's name gives the variant, and a name that parses prints back |
| OrderTypes.VariantToStringInjective | components/controls/order-types/src/lib.rs:29-40 | the six names are distinct |
| OrderTypes.OrderModeFromStr | components/controls/order-types/src/lib.rs:50-59 | always Ok, with favorite and current both the parsed variant |
| OrderTypes.InsertPermutes | components/controls/order-types/src/lib.rs:62-74 | inserting adds exactly the new icon to the multiset of icons |
| OrderTypes.InsertSorted | components/controls/order-types/src/lib.rs:62-74 | inserting into a sequence sorted by the key keeps it sorted |
| OrderTypes.SortByKey | components/controls/order-types/src/lib.rs:62-74 | a sorted permutation by the mode's key |
| OrderTypes.SortIcons | components/controls/order-types/src/lib.rs:61-82 | a permutation; ascending or descending by order_alpha or order_color for the four sort modes; SearchMatch leaves the icons unchanged |
| OrderControl.StoredOrderMode | components/controls/src/order.rs:28-32 | a stored value always parses |
| OrderControl.OrderModeFromStorageAndSearch | components/controls/src/order.rs:34-43 | favorite is the stored mode or the default; a non-empty search makes current SearchMatch, otherwise current is favorite |
| OrderControl.StoredModeReadBack | components/controls/src/order.rs:28-46 | a mode saved to storage is read back as the favorite |
| OrderControl.ResortAsWrittenSkipsIcon | components/controls/src/order.rs:73-77 | as written, after the separate sorts the next load repeats an icon already loaded and never loads a result that sorts first |
| OrderControl.Resort | components/controls/src/order.rs:73-77 | the icons are a permutation and the loaded icons are the first as many of them as were loaded |
| OrderControl.ResortKeepsPaging | components/controls/src/order.rs:73-77 | after the re-sort, the next load keeps the loaded icons a prefix of the icons |
| OrderControl.ClickTarget | components/controls/src/order.rs:135-210 | a sort button never selects SearchMatch or Random |
| OrderControl.ShownAlphaButton | components/controls/src/order.rs:131-157 | the shown alphabetic button is not hidden and its partner is |
| OrderControl.ShownColorButton | components/controls/src/order.rs:178-205 | the shown colour button is not hidden and its partner is |
| OrderControl.ShownButtonToggles | components/controls/src/order.rs:131-210 | one button of each pair shows; clicking it goes Alphabetic→AlphabeticReverse and anything else→Alphabetic, and the same for Color |
| OrderControl.OrderControl.constructor | components/controls/src/order.rs:18-23 | the initial order mode comes from storage and the search value |
| OrderControl.OrderControl.SetOrderMode | components/controls/src/order.rs:49-91 | current becomes the mode; favorite and storage change only for a mode other than SearchMatch; SearchMatch fires a search; otherwise, while searching, the icons and the loaded icons are each sorted on their own (as written), and when not searching the grid is reset, sorted and given one page |
| OrderControl.OrderControl.OnMount | components/controls/src/order.rs:101-119 | only Random and Color are re-applied on mount: the mode is stored again and the grid re-sorted (during a search, each list on its own), every other mode leaves mode, storage and grid alone; the search value and search events never change |
| OrderControl.OrderControl.OnClick | components/controls/src/order.rs:134-219 | the click target becomes current and favorite and is saved; the stored search and the search events are kept; while searching the icons and loaded icons are each sorted on their own, otherwise the grid is the sorted icon list with one page loaded |
| LayoutTypes.IconsPerPage | components/controls/layout-types/src/lib.rs:12-17 | 30 for Comfortable, 60 for Compact |
| LayoutTypes.LayoutFromStr | components/controls/layout-types/src/lib.rs:20-30 | Ok exactly for "comfortable" and "compact" |
| LayoutTypes.LayoutRoundTrip | components/controls/layout-types/src/lib.rs:20-39 | from_str(to_string(l)) == Ok(l), and a name that parses prints back |
| SvgIcon.FillAttribute | components/svg-icon/src/lib.rs:74-77 | empty for None; ` fill="#…"` for Some |
| SvgIcon.EscapeXml | components/svg-icon/src/lib.rs:96-101 | the escaped title contains no '<', '>', '"' or '\'' |
| SvgIcon.EscapeTitleIsEscapeXml | components/svg-icon/src/lib.rs:96-101 | the chain of five replace calls escapes character by character ('&' first, so nothing is escaped twice) |
| SvgIcon.UnescapeEscape | components/svg-icon/src/lib.rs:96-101 | unescaping the escaped text gives the original back |
| SvgIcon.EscapedTitle | components/svg-icon/src/lib.rs:96-101 | the escaped title has no markup characters and unescapes to the title |
| SvgIcon.SvgToPathOfSvgWithPath | components/svg-icon/src/lib.rs:68-80 | svg_to_path recovers the path from svg_with_path_opt_fill |
| SvgIcon.SvgToPathOfSvgWithTitle | components/svg-icon/src/lib.rs:84-108 | svg_to_path recovers the path from svg_with_title_path_opt_fill |
| PreviewGenerator.Truncate | components/preview-generator/src/lib.rs:221-229 | unchanged when its byte length ≤ max_len; otherwise the first max_len bytes followed by '…' |
| PreviewGenerator.TruncateAscii | components/preview-generator/src/lib.rs:221-229 | for ASCII: s, or its first max_len characters plus '…' |
| PreviewGenerator.TruncatePanics | components/preview-generator/src/lib.rs:225 | panics exactly when cutting at max_len would split a character |
| PreviewGenerator.SearchBrand | components/preview-generator/src/lib.rs:33-42 | the icon of the first result, if any |
| PreviewGenerator.InitialIconOf | components/preview-generator/src/lib.rs:44-74 | no query, an empty query or no match gives "Simple Icons"/"simpleicons"/"111111" with the default path; a match gives its title, slug and hex, an empty path, and the icon |
| PreviewGenerator.BadgeLabel | components/preview-generator/src/lib.rs:393-396 | empty for the "social" style, "simple icons" otherwise |
| PreviewGenerator.RewriteIdsIdAttr | components/preview-generator/src/lib.rs:406-413 | id="c" becomes id="<id>-c" for the gradients r, s, a, b |
| PreviewGenerator.RewriteIdsUrlRef | components/preview-generator/src/lib.rs:406-413 | url(#c) becomes url(#<id>-c) |
| PreviewGenerator.RewriteIdsAroundToken | components/preview-generator/src/lib.rs:406-413 | on any text, a gradient id or reference is renamed and the text before and after it is rewritten on its own: no replacement reaches across a token |
| PreviewGenerator.RewriteIdsIsRenameScan | components/preview-generator/src/lib.rs:406-413 | on ANY badge text the chain of eight replacements equals a one-pass scan that renames every id="r/s/a/b" and url(#r/s/a/b) and keeps every other character, as long as the badge id holds no '"', '(', ')' or '=' |
| PreviewGenerator.RewriteIdsKeepsPlainBadge | components/preview-generator/src/lib.rs:406-413 | a badge without gradient ids or references is unchanged |
| Header.ToggleMenuOf | components/src/header/mod.rs:23-27 | flips the menu and closes extensions and languages |
| Header.ToggleExtensionsOf | components/src/header/mod.rs:30-35 | flips extensions; languages close if both would be open |
| Header.ToggleLanguagesOf | components/src/header/mod.rs:38-43 | flips languages; extensions close if both would be open |
| Header.ToggleExtensionsTwice | components/src/header/mod.rs:30-35 | toggling extensions twice restores it and leaves languages closed |
| Header.OpenBothKeepsLast | components/src/header/mod.rs:30-43 | opening one list and then the other leaves only the last open |
| Header.HeaderState.constructor | components/src/header/mod.rs:11-19 | everything closed |
| Header.HeaderState.ToggleMenu | components/src/header/mod.rs:23-27 | updates the fields as toggle_menu does and keeps extensions and languages from both being open |
| Header.HeaderState.ToggleExtensions | components/src/header/mod.rs:30-35 | updates the fields as toggle_extensions does and keeps that invariant |
| Header.HeaderState.ToggleLanguages | components/src/header/mod.rs:38-43 | updates the fields as toggle_languages does and keeps that invariant |
| Modal.ModalFromStr | components/src/modal.rs:115-126 | Ok exactly for "extensions", "languages" and "icon" |
| Modal.ModalRoundTrip | components/src/modal.rs:105-126 | from_str(to_string(m)) == Ok(m), and a name that parses prints back |
| Modal.ModalNamesDistinct | components/src/modal.rs:105-113 | the three names are distinct and non-empty |
| Modal.ModalFromParam | components/src/modal.rs:162-167 | no parameter, or one that does not parse, gives None |
| Modal.UpdatedParam | components/src/modal.rs:134 | setting the parameter to "" removes it |
| Modal.ModalOpenSignal.constructor | components/src/modal.rs:162-167 | the open modal is the parsed URL parameter |
| Modal.ModalOpenSignal.SetNone | components/src/modal.rs:132-135 | closes the modal and clears the parameter |
| Modal.ModalOpenSignal.Set | components/src/modal.rs:137-159 | opens the modal and writes its name to the parameter |
| Download.DownloadTypeFromStr | components/src/controls/download/mod.rs:26-35 | never fails; PNG exactly for "png", SVG otherwise |
| Download.DownloadTypeRoundTrip | components/src/controls/download/mod.rs:26-44 | from_str(to_string(d)) == Ok(d), and the names are distinct |
| Download.InitialDownloadTypeOf | components/src/controls/download/mod.rs:53-63 | the URL parameter wins, then storage, then the default SVG |
| Download.DownloadStorage.InitialDownloadType | components/src/controls/download/mod.rs:53-63 | a type from the URL is saved to storage; otherwise storage is untouched |
| Download.SavedTypeIsKept | components/src/controls/download/mod.rs:53-69 | the type saved from the URL is read back from storage on the next visit |
| Types.PlainAliases | libs/types/src/lib.rs:32-46 | the loop computes the plain aliases |
| Types.PlainAliasesLayout | libs/types/src/lib.rs:32-46 | aka, then dup, then the loc titles (values only), and the length is the sum of the three |
| Types.LocTitles | libs/types/src/lib.rs:42 | the loc entries contribute their titles, in order |
| Title.LocLanguage | components/grid/src/item/title.rs:35-39 | the language part has no '-' and is the whole tag when it has none |
| Title.FirstExactFrom | components/grid/src/item/title.rs:26-30 | the first loc entry whose tag equals the language id |
| Title.FirstLanguageFrom | components/grid/src/item/title.rs:34-43 | the first loc entry whose language part equals the current language |
| Title.GetIconLocalizedTitle | components/grid/src/item/title.rs:7-46 | the two loops compute the localized title |
| Title.NoLocalizationGivesTitle | components/grid/src/item/title.rs:11-13 | no aliases or no loc gives the icon title |
| Title.ExactMatchWins | components/grid/src/item/title.rs:26-30 | an exact language-id match wins over prefix matches |
| Title.LanguageMatchOtherwise | components/grid/src/item/title.rs:32-45 | otherwise the first loc whose language part matches; if none, the icon title |
| Keyboard.ChordButton | components/preview-generator/src/keyboard.rs:34-63 | only arrowup, arrowdown, keys, and keyc without a selection click a button |
| Keyboard.ShortcutNeedsControlChord | components/preview-generator/src/keyboard.rs:18-63 | a shortcut fires only with exactly two keys held and a control key first; Ctrl+S saves |
| Keyboard.Retain | components/preview-generator/src/keyboard.rs:70-74 | removes every entry equal to the released code and keeps the others |
| Keyboard.RetainAbsent | components/preview-generator/src/keyboard.rs:70-74 | releasing a key not held changes nothing |
| Keyboard.KeysPressed.KeyDown | components/preview-generator/src/keyboard.rs:9-66 | appends the lower-cased code; a fired shortcut clears the buffer; the default is prevented except for copy |
| Keyboard.KeysPressed.KeyUp | components/preview-generator/src/keyboard.rs:68-76 | the buffer keeps only entries other than the released code |
| Keyboard.CtrlUpUploads | components/preview-generator/src/keyboard.rs:34-40 | Ctrl then ArrowUp uploads, and Ctrl alone does nothing |
| Keyboard.RepeatBlocksChord | components/preview-generator/src/keyboard.rs:18-20 | with more than two keys in the buffer no shortcut fires |
| Keyboard.ReleaseClearsAll | components/preview-generator/src/keyboard.rs:70-74 | releasing a key held repeatedly clears all its entries |
| Stats.Step | scripts/create-stats.ts:31-50 | a header switches the section and is not counted; a "\| [" row counts in the current section only |
| Stats.CountNumberOfLibrariesAndExtensions | scripts/create-stats.ts:17-65 | the loop, with its continue and break, returns the counts of the line-by-line scan |
| Stats.OutsideSectionsNotCounted | scripts/create-stats.ts:44-50 | outside both sections nothing is counted |
| Stats.BeforeHeadersNotCounted | scripts/create-stats.ts:23-50 | lines before the first header never count |
| Stats.ScanAppendUnstopped | scripts/create-stats.ts:31-59 | a scan that does not stop in a prefix continues from where that prefix left it |
| Stats.StopAtHeading | scripts/create-stats.ts:52-58 | once both counts are positive, the first '#' line that is not a header ends the scan |
| Stats.ScanBounded | scripts/create-stats.ts:44-50 | counts only grow, and by at most the number of rows scanned |
| Stats.SmallReadme | scripts/create-stats.ts:17-65 | a README with one extension row and two library rows gives 1 and 2; the row after the next heading is ignored |
| Deprecated.AtVersion | libs/simple-icons/src/deprecated.rs:69 | the version has no 'v' and is the title when it has none |
| Deprecated.LastAddedSlugIs | libs/simple-icons/src/deprecated.rs:94-116 | the new slug is Some exactly when an icon file was added, and comes from the last added icon path |
| Deprecated.RenamedToSpec | libs/simple-icons/src/deprecated.rs:110-115 | new_slug is Some only when the pull request both deletes and adds an icon file, and names the added icon |
| Deprecated.FileRecords | libs/simple-icons/src/deprecated.rs:118-161 | at most one record per file |
| Deprecated.FileRecordsProduced | libs/simple-icons/src/deprecated.rs:126-157 | each record comes from a DELETED file under icons/ ending in .svg, with slug = path minus "icons/" and ".svg" and the milestone and PR data |
| Deprecated.PrRecordsProduced | libs/simple-icons/src/deprecated.rs:82-162 | every record of a milestone comes from one of its pull requests |
| Deprecated.CandidatesProduced | libs/simple-icons/src/deprecated.rs:67-164 | every candidate record comes from some milestone's pull request |
| Deprecated.DedupSpec | libs/simple-icons/src/deprecated.rs:25-29 | no two kept records share a slug; a slug is kept exactly when offered; the kept record is the first with that slug |
| Deprecated.DedupFromCandidates | libs/simple-icons/src/deprecated.rs:159-161 | kept records are among those offered |
| Deprecated.DeprecationsUnique | libs/simple-icons/src/deprecated.rs:25-29 | the result has unique slugs, holds exactly the candidates' slugs, and keeps the first occurrence |
| Deprecated.FileRecordsComplete | libs/simple-icons/src/deprecated.rs:126-157 | every deleted icon file of a pull request offers its record |
| Deprecated.PrRecordsComplete | libs/simple-icons/src/deprecated.rs:82-162 | every deleted icon file of every pull request of a milestone offers its record |
| Deprecated.CandidatesComplete | libs/simple-icons/src/deprecated.rs:67-164 | every deleted icon file of every milestone's pull requests offers its record |
| Deprecated.DeprecationsComplete | libs/simple-icons/src/deprecated.rs:25-29 | every slug a deleted icon file offers is in the result |
| Deprecated.DeprecationsProduced | libs/simple-icons/src/deprecated.rs:67-164 | every result comes from a deleted icon file of a milestone's pull request |
| Deprecated.IconPathSlug | libs/simple-icons/src/deprecated.rs:104-114 | icons/<name>.svg is an icon file and its slug is <name> |
| Deprecated.ScanPullRequestFiles | libs/simple-icons/src/deprecated.rs:94-116 | the first loop finds the last added slug and whether an icon was deleted |
| Deprecated.OfferPullRequestRecords | libs/simple-icons/src/deprecated.rs:118-161 | the second loop offers this pull request's records, and the list stays deduplicated |
| Deprecated.OfferMilestoneRecords | libs/simple-icons/src/deprecated.rs:67-163 | one milestone's pull requests are offered in order |
| Deprecated.FetchDeprecated | libs/simple-icons/src/deprecated.rs:65-166 | the nested loops return the deduplicated records of all milestones in order |
| Deprecated.RenameRecord | libs/simple-icons/src/deprecated.rs:118-161 | deleting icons/old.svg and adding icons/new.svg records "old" renamed to "new" |
| Deprecated.SecondRemovalIgnored | libs/simple-icons/src/deprecated.rs:17-29 | a second record with the same slug is dropped |

## Left out

- Floating-point rules (`icon_size`, `icon_centered`, the collinear-segment rule, `round_decimal`) are not modelled; SdkLint.LintPath takes the size and centering errors as parameters.
- SdkLint.IconPrecision: each segment arrives as the `to_string` renderings of its numbers; Rust's float formatting is not modelled.
- Unicode NFD decomposition, Unicode `is_alphanumeric`/`is_alphabetic` and Unicode case mapping are not modelled; `Strings.Upper` and `Strings.Lower` map ASCII letters only.
- Sdk.TitleToSlug: requires every character to be ASCII or one of the eight letters the source replaces explicitly (đ ħ ı ĸ ŀ ł ß ŧ), because every other character goes through NFD.
- PathLint.FixPathNotStartsWithMovetoCommand: tests ASCII letters instead of Unicode `is_alphabetic`, so it prepends 'M' where Rust panics on a non-ASCII first letter (`replace_range(0..1, ...)` inside a character).
- PathLint.FixNegativeZero: index 0 has no previous character, as in the release build where `i - 1` wraps; the debug build's overflow panic is not modelled.
- PreviewInputs.NormalizedColorValue: upper-cases ASCII letters only.
- Sdk.NormalizeColor: upper-cases ASCII letters only; Rust's `to_uppercase` maps all of Unicode and can change a character's byte width.
- Sdk.NormalizedColorCases: states the character cases for ASCII input only; Sdk.NormalizedColorShape states the byte cases for every input.
- Sdk.NormalizeColorIdempotent: holds for ASCII input only; outside ASCII a second pass can cut the colour, as Sdk.NormalizeColorNotIdempotentOutsideAscii shows.
- Title.GetIconLocalizedTitle: the language subtag that `unic_langid` parses from the id is a parameter (`currentLang`, `None` when parsing fails); BCP 47 parsing and the warning log are not modelled.
- PreviewInputs.SearchBrandSuggestions: the fuzzy search (fast-fuzzy) is a parameter, a sequence of indices into ICONS; the same holds for Search.NewDisplayedIcons and PreviewGenerator.SearchBrand, and the float-to-index conversion is not modelled.
- OrderTypes.SortIcons: the random order is a parameter known only to permute the icons (no RNG), and the stability of `sort_by` is not stated.
- OrderControl.OrderControl.SetOrderMode: the search event is a counter and the stored search value a field; Leptos signals and effects are modelled only by the state their handlers change. While searching it sorts the icons and the loaded icons separately, as the code does; the second Findings row shows the paging this breaks.
- Keyboard.KeysPressed.KeyDown: whether the page has a text selection (`window().get_selection()`) is a parameter.
- PreviewHelpers.ContrastColorFor: the floating-point lightness test `is_relatively_light_icon_hex` is a parameter.
- Leptos views, fetching icon SVGs, canvas drawing, badge-maker, clipboard and downloads are I/O or foreign code; badge-maker's output is an input string to the id rewriting.
- Deprecated.FetchDeprecated: reading the temporary JSON file, parsing the GraphQL response and the API-error panic are I/O; the data arrives as parsed records, a non-string `changeType` counts as any other text, and `u64` numbers are `nat`.
- Stats.CountNumberOfLibrariesAndExtensions: reading the README, `getNumberOfDeprecatedIcons` and writing the stats file are I/O.

## Findings

| source | as written | input that shows it | evidently intended | confidence | as-written member | corrected member |
|---|---|---|---|---|---|---|
| simple-icons/src/sdk/lint.rs:15-25 | the decimals of a number are the length of the last piece of `to_string().split('.')`, so an integral number without '.' counts all its digits | a segment argument 123456 is counted as 6 decimals, so `icon_precision` reports "currently 6" | an integral number has 0 decimals | medium, not executed | SdkLint.IntegralNumberCountedAsDecimals | SdkLint.DecimalsAfterPoint |
| components/controls/src/order.rs:73-77 | while searching, `grid.icons` and `grid.loaded_icons` are sorted separately, so the loaded icons stop being the first page of the icons | a full first page of results, plus one more result with the smallest `order_alpha`; sort alphabetically, then load more | the loaded icons stay the head of the re-sorted icons | medium, not executed | OrderControl.ResortAsWrittenSkipsIcon | OrderControl.ResortKeepsPaging |

In the second row, the next load adds an icon that is already loaded, and the smallest result is never shown.

The rest of the model follows the code as written: SdkLint.MaxDecimals, SdkLint.IconPrecision and SdkLint.LintPath count an integral number's digits (SdkLint.IntegralArgumentReported), and OrderControl.OrderControl.SetOrderMode and OrderControl.OrderControl.OnClick sort the two lists separately (OrderControl.ResortAsWritten). The corrected members state the intended behaviour beside them.
