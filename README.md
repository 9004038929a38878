# Campus-network login client: portal scrapers and terminal widgets

This project is a Dafny model of two parts of a campus-network login client.

The first part is the portal client in `api/`:

- It reads the gateway's redirect page into the portal URL, the URL's root and its query arguments.
- It pulls the auth endpoint and the school code out of the portal's script.
- It maps the four carriers to their account-name suffix tokens.
- It builds the two login requests: the primary form POST, then the quick-auth GET.
- It classifies the JSON answers to those requests.
- It decides whether a logout succeeded.

The second part is the account form of the terminal UI in `tui/`: a text field, a carrier chooser made of four checkboxes, the two-entry main menu, and the form that combines them. Each widget is a Dafny `class` with the fields the Rust code mutates. Its methods change those fields and append to the shared action channel.

Module layout:

- `wrappers.dfy` (`Option`, `Result`).
- `utf8.dfy`: the byte encoding of a Rust `String`.
- `text.dfy`: `find`, `trim` and `split` on `str`.
- `json.dfy`: the part of `serde_json::Value` that the code reads.
- `auth.dfy` and `logout.dfy`: `api/src/auth.rs` and `api/src/logout.rs`.
- `ui_data.dfy`: actions, signals, events, rectangles, the channel and the id counters.
- `input.dfy`, `checkbox.dfy`, `menu.dfy` and `form.dfy`: the four widget files.

Where the Rust code would panic, on an `unwrap` of `None`, a byte slice outside a character boundary or a u16 overflow, the model makes the panic-free case a precondition. A predicate named `…Defined` states that case.

Where the code and its evident intent disagree, the model follows the code:

- Malformed portal input is meant to become a typed error. The code panics in `parse_index_page` and `get_js_auth_info`, which the model states as preconditions.
- The logout root is meant to be the host without its port, as the tests' logout URLs show. The code keeps only the scheme. See the second finding below.

## Model

| member | source | states |
|---|---|---|
| Utf8.EncodeChar | tui/src/component/form/input.rs:119-120 | `String::push(c)` appends 1 to 4 bytes: one byte exactly for ASCII, a leading byte and then only continuation bytes |
| Utf8.DecodeEncode | tui/src/component/form/input.rs:119-120 | the bytes pushed for a character decode back to that character |
| Utf8.EncodeString | tui/src/component/form/mod.rs:48-49 | a UTF-8 string is at least as long in bytes as in characters, and its first byte starts a character |
| Utf8.EncodeAppend | tui/src/component/form/input.rs:119-120 | the encoding of a concatenation is the concatenation of the encodings |
| Utf8.SequenceLength | api/src/auth.rs:35-37 | a lead byte announces at most 4 bytes, and none for a continuation byte, C0, C1 or F5 to FF |
| Utf8.ValidPrefix | api/src/auth.rs:35-37 | the longest well-formed start of the bytes is at most the announced length and what is there, and empty exactly for a byte that can start no sequence |
| Utf8.WellFormedIsScalar | api/src/auth.rs:35-37 | a complete well-formed sequence decodes to a Unicode scalar value, never a surrogate or a value above U+10FFFF |
| Utf8.DecodeLossy | api/src/auth.rs:35-37 | `from_utf8_lossy` never yields more characters than there are bytes |
| Utf8.ThreeByteSecond | tui/src/component/form/input.rs:119-120 | the second byte of a three-byte encoding is in the range its lead byte allows |
| Utf8.FourByteSecond | tui/src/component/form/input.rs:119-120 | the second byte of a four-byte encoding is in the range its lead byte allows |
| Utf8.EncodedCharWellFormed | tui/src/component/form/input.rs:119-120 | the encoding of a character is exactly one complete well-formed sequence, whatever follows it |
| Utf8.DecodeEncodeString | api/src/auth.rs:35-37 | `from_utf8_lossy` of a valid encoding gives back the text, with no replacement character |
| Utf8.LastCharStart | tui/src/component/form/input.rs:115 | the last byte that is not a continuation byte: a character boundary with only continuation bytes after it |
| Utf8.LastCharStartOf | tui/src/component/form/input.rs:115 | after any bytes followed by a character's encoding, the last character starts where that encoding does |
| Utf8.EncodeLast | tui/src/component/form/input.rs:115 | the encoding of a non-empty text is the encoding of all but its last character, then that character's encoding |
| Utf8.CutAtLast | tui/src/component/form/input.rs:115 | bytes followed by one character's encoding, cut at the last character start, give back those bytes |
| Utf8.DropLastChar | tui/src/component/form/input.rs:115 | cutting an encoded text at its last character start leaves the encoding of the text without its last character |
| Text.FindFrom | api/src/auth.rs:21-22 | `s[from..].find(pat)`: the first occurrence at or after `from`, or none at all |
| Text.Find | api/src/auth.rs:54 | `str::find` returns an index exactly when the pattern occurs, and that index is the first occurrence |
| Text.FindFromIs | api/src/auth.rs:21-22 | an occurrence with none before it is the one `find` returns |
| Text.FindCharFrom | api/src/auth.rs:29 | the first index at or after `from` holding the character, or proof that there is none |
| Text.FindChar | api/src/auth.rs:28 | `find(c)` finds `c` exactly when it occurs, at its first occurrence |
| Text.FindCharFromIs | api/src/auth.rs:57 | a character with none before it is the one `find` returns |
| Text.SkipWhitespace | api/src/auth.rs:59 | `trim`'s left edge: everything before it is whitespace and it stops at a non-whitespace character |
| Text.SkipWhitespaceBack | api/src/auth.rs:59 | `trim`'s right edge: everything after it is whitespace and it stops after a non-whitespace character |
| Text.Trim | api/src/auth.rs:59 | the trimmed text starts and ends with non-whitespace, and it is empty only for all-whitespace input |
| Text.TrimPadded | api/src/auth.rs:59 | trimming whitespace-padded text gives back exactly that text |
| Text.Split | api/src/auth.rs:82 | `split(':')` gives at least one piece, no piece holds the separator, and the first piece is the prefix up to the first separator |
| Text.SplitCons | api/src/auth.rs:35-37 | splitting text that starts with a separator-free piece and the separator yields that piece, then the split of the rest |
| Text.SplitJoin | api/src/auth.rs:35-37 | splitting undoes joining when no piece holds the separator |
| Text.JoinSplit | api/src/auth.rs:35-37 | joining the pieces with the separator gives back the whole text |
| Json.Get | api/src/auth.rs:227 | `Value::get` finds a member only of an object that has that key |
| Json.AsI64 | api/src/auth.rs:227 | `as_i64` succeeds exactly for integers in the signed 64-bit range, never for a float, and gives that integer's value |
| Json.AsStr | api/src/auth.rs:260 | `as_str` succeeds exactly for JSON strings and gives their text |
| Json.GetI64 | api/src/auth.rs:227 | an integer exactly when the value is an object whose member under the key is an integer in the i64 range, and then that integer |
| Json.GetStr | api/src/auth.rs:260 | a string exactly when the value is an object whose member under the key is a JSON string, and then that string |
| Json.GetStrOrEmpty | api/src/auth.rs:231-233 | the string member under the key, or "" when there is none or it is not a string |
| Logout.ParseResult | api/src/logout.rs:26-32 | success exactly when `result` is an integer equal to 1; otherwise the error carries the whole response |
| Logout.LogoutUrl | api/src/logout.rs:38 | the endpoint is the base URL followed by `/loginOut` |
| Logout.Logout | api/src/logout.rs:34-58 | a transport failure is a request error carrying its reason; a received answer gives exactly ParseResult of it; success exactly when the answer is received and ParseResult accepts it |
| Logout.ResultMustBeIntegerOne | api/src/logout.rs:27 | the string "1", the float 1.0, 0, a misnamed member and a non-object all fail |
| Logout.IntegerOneLogsOut | api/src/logout.rs:27-28 | any object whose `result` is the integer 1 logs out, whatever its other members |
| Auth.SchemeEnd | api/src/auth.rs:21 | the index of a `://`, with no `://` starting before it |
| Auth.GetRootUrl | api/src/auth.rs:20-24 | the root is a proper prefix of the URL, followed by `/`; it contains the first `://` and no `/` after it |
| Auth.QuotedUrl | api/src/auth.rs:27-31 | the extracted URL holds no double quote |
| Auth.Query | api/src/auth.rs:34-35 | the text after the URL's first `?`: no `?` comes before it |
| Auth.ParseIndexPage | api/src/auth.rs:26-44 | a result exists exactly when the page has a quoted string with a `?`; the URL is the root followed by the rest; the args are the parsed query |
| Auth.QuotedUrlOf | api/src/auth.rs:27-31 | the first quoted string of `before"url"after` is `url` |
| Auth.ParseRedirectPage | api/src/auth.rs:26-44 | a redirect page is read back into the URL it quotes, with that URL's root and query arguments |
| Auth.ParseIndexPageChecked | api/src/auth.rs:26-44 | the corrected parse: equal to ParseIndexPage wherever that does not panic, and None exactly when the quoted URL is missing, has no root or has no `?` |
| Auth.NoColonNoRoot | api/src/auth.rs:21 | a URL with no colon has no root |
| Auth.RelativeRedirectPanics | api/src/auth.rs:32-34 | a page quoting a colon-free relative link makes `parse_index_page` panic, while the corrected parse returns None |
| Auth.RelativeIndexLinkPanics | api/src/auth.rs:32-34 | the concrete page `<a href="index.html">` panics although it has no `?` |
| Auth.ScriptTagCaptures | api/src/auth.rs:8-11 | a one-line `<script … src="…js/common.js" …>` tag matches the `get_js_url` pattern, and the capture is exactly the path |
| Auth.LineCaptures | api/src/auth.rs:8-11 | a tag line found in the page and followed by `>` is a match of the pattern, capturing the line's path |
| Auth.TagLineParts | api/src/auth.rs:8-11 | `<script`, `src="`, the path and its closing quote sit where the tag line puts them, and the line has no newline |
| Auth.SplitPair | api/src/auth.rs:35-37 | a query piece splits at its first `=` (the name holds no `=`); a piece without `=` is a name with an empty value |
| Auth.HexValue | api/src/auth.rs:35-37 | a hex digit of either case stands for a value below 16 |
| Auth.PercentDecode | api/src/auth.rs:35-37 | the decoded bytes number at most 4 per character of the text; the decoding rules themselves are the contracts of the lemmas below |
| Auth.UpperHex | api/src/auth.rs:35-37 | a hex digit raised to upper case is still a hex digit, of the same value |
| Auth.PlusIsSpace | api/src/auth.rs:35-37 | `+` decodes to the space byte, exactly as `%20` does |
| Auth.CodeCaseInsensitive | api/src/auth.rs:35-37 | `%` and two hex digits of either case decode to the byte they spell, the same as the upper-case code |
| Auth.StrayPercentKept | api/src/auth.rs:35-37 | a `%` not followed by two hex digits is kept as the `%` byte |
| Auth.PercentDecodePlain | api/src/auth.rs:35-37 | text with no `%` and no `+` decodes to its own UTF-8 bytes |
| Auth.DecodeComponent | api/src/auth.rs:35-37 | a name or value with no `%` and no `+` decodes to itself |
| Auth.ParsePair | api/src/auth.rs:35-37 | a piece with nothing to decode becomes its split at the first `=` |
| Auth.ParseNonEmpty | api/src/auth.rs:35-37 | empty pieces are skipped and every other piece is read, in order, by whatever reads one piece |
| Auth.ParseNonEmptyAppend | api/src/auth.rs:35-37 | two runs of pieces give their two runs of results in order |
| Auth.PairsOf | api/src/auth.rs:35-37 | all-empty pieces give no pairs; a non-empty first piece gives the first pair; when no piece is empty, pair `i` is the parse of piece `i` |
| Auth.PairsOfAppend | api/src/auth.rs:35-37 | pieces are read independently: two runs of pieces give their two runs of pairs in order, so an empty piece contributes nothing |
| Auth.ParseQuery | api/src/auth.rs:35-37 | at most one pair per `&`-separated piece; the empty query has none; a query without `&` is exactly one decoded pair |
| Auth.HexDigit | api/src/auth.rs:246-250 | an upper-case hexadecimal digit, which decodes back to its value |
| Auth.PercentEncode | api/src/auth.rs:246-250 | for byte `k`, characters `3k`, `3k+1`, `3k+2` are `%` and the byte's high and low hex digits |
| Auth.CodesShift | api/src/auth.rs:246-250 | after the first byte's three characters come the codes of the remaining bytes |
| Auth.PercentDecodeEncoded | api/src/auth.rs:35-37 | decoding `%XX` codes gives back their bytes, whatever follows them |
| Auth.PercentDecodeByte | api/src/auth.rs:35-37 | one `%XX` code decodes to its byte |
| Auth.EncodedConcat | api/src/auth.rs:246-250 | serializer output followed by serializer output is serializer output, with no `&` or `=` |
| Auth.EncodeComponent | api/src/auth.rs:246-250 | the encoded text holds only `%`, `+` and unreserved characters, so never `&` or `=` |
| Auth.PercentDecodeComponent | api/src/auth.rs:35-37 | decoding an encoded name or value gives back its UTF-8 bytes |
| Auth.ComponentRoundTrip | api/src/auth.rs:35-37 | decoding an encoded name or value gives back the text |
| Auth.EncodePair | api/src/auth.rs:248-249 | `append_pair` writes a piece without `&` that parses back to the pair |
| Auth.Serialize | api/src/auth.rs:246-250 | the serialized query is empty exactly when there are no pairs |
| Auth.EncodedPieces | api/src/auth.rs:246-250 | one `name=value` piece per pair, in order |
| Auth.SerializeIsJoin | api/src/auth.rs:246-250 | the serializer joins the encoded pieces with `&` |
| Auth.PairsOfEncoded | api/src/auth.rs:35-37 | the encoded pairs, read as pieces, give back the pairs |
| Auth.ParseSerialized | api/src/auth.rs:35-37 | parsing a serialized query gives back the pairs, in order, decoded |
| Auth.ValueSlot | api/src/auth.rs:53-58 | the text after the first `name =` up to the next `;` holds no `;` |
| Auth.GetVariableValue | api/src/auth.rs:52-72 | a value exists exactly when the trimmed slot opens with a quote; it is that text without its first and last characters |
| Auth.FirstAssignment | api/src/auth.rs:54 | an assignment with no earlier `name =` is the one found |
| Auth.ValueSlotAt | api/src/auth.rs:52-58 | the assignment `find` returns and the first `;` after it bound the value slot |
| Auth.ValueSlotAfter | api/src/auth.rs:53-58 | with no earlier `name =`, the slot is the text up to the first `;` after the assignment |
| Auth.ExtractOpenedValue | api/src/auth.rs:60-62 | after an opening quote the value runs up to the last character before the `;`, whatever that character is: the closing quote is never checked |
| Auth.ExtractQuotedValue | api/src/auth.rs:52-72 | `name = 'v';` or `name = "v";`, with any whitespace around it, yields exactly `v` |
| Auth.LogoutRootAsWritten | api/src/auth.rs:82 | the logout root the code computes is the URL up to its first `:`, which comes no later than the `://` |
| Auth.LogoutRootIsWholeScheme | api/src/auth.rs:82 | when the scheme has no `:` of its own, the code's logout root is exactly the scheme |
| Auth.GetJsAuthInfo | api/src/auth.rs:80-90 | the auth URL and the school codes are the two script variables; the logout root is LogoutRootAsWritten of the auth URL |
| Auth.LogoutHost | api/src/auth.rs:82 | the corrected logout root: a prefix of the root that contains the `://`, holds no `:` or `/` after it, and stops at the port's `:` |
| Auth.AsWrittenIsPrefixOfHost | api/src/auth.rs:82 | the root the code keeps is a prefix of the intended one |
| Auth.GetJsAuthInfoCorrected | api/src/auth.rs:80-90 | the same auth URL and school codes as GetJsAuthInfo, with LogoutHost as the logout root |
| Auth.HostPortRoot | api/src/auth.rs:20-24 | the root of `scheme://host:port/path` is `scheme://host:port` |
| Auth.LogoutRootOfHostPortUrl | api/src/auth.rs:82 | for `scheme://host:port/path` the code's logout root is `scheme`, while the intended one is `scheme://host` |
| Auth.LogoutRootIsScheme | api/src/auth.rs:419 | for an auth URL on the tests' portal host `10.101.2.205`, the code's logout root is `http`, not the `http://10.101.2.205` the tests log out from |
| Auth.ToStr | api/src/auth.rs:100-113 | every carrier token is `@` followed by two or three letters |
| Auth.FromToken | api/src/auth.rs:100-113 | a token read back names a carrier whose token it is |
| Auth.TokenRoundTrip | api/src/auth.rs:106-113 | every carrier's token reads back as that carrier |
| Auth.ToStrInjective | api/src/auth.rs:106-113 | no two carriers share a token |
| Auth.PrimaryAuthForm | api/src/auth.rs:212-217 | the form is `campusCode`, `username`, `password`, `operatorSuffix`, in that order, with their values |
| Auth.QuickAuthPairs | api/src/auth.rs:246-249 | the redirect's arguments come first, then `userid` (id followed by the carrier token), then `passwd` |
| Auth.QuickAuthUrl | api/src/auth.rs:244-250 | the URL is the portal root, then `/quickauth.do?`, then a query that parses back to the redirect's arguments followed by `userid` and `passwd` |
| Auth.ClassifyPrimary | api/src/auth.rs:227-239 | accepted exactly when `code` is the integer 1; any other integer is a rejection carrying `msg` (or ""); otherwise the whole response is an invalid response |
| Auth.ClassifyQuick | api/src/auth.rs:260-274 | success exactly when `code` is the string "0"; any other string is a rejection carrying `message` (or ""); otherwise the whole response is an invalid response |
| Auth.CodeTypesDiffer | api/src/auth.rs:227 | an integer code 1 passes the primary check but is an invalid answer to quick auth; the string "0" passes quick auth; the string "1" and the float 1.0 fail the primary check |
| Auth.RejectionMessages | api/src/auth.rs:228-236 | `{"code":2,"msg":"bad pass"}` and `{"code":"1","message":"x"}` are rejections carrying those messages; an object without `code` is an invalid response |
| Auth.Authenticate | api/src/auth.rs:203-275 | success exactly when the primary answer has integer code 1 and the quick-auth answer has string code "0"; a failed exchange is a request error carrying its reason; a rejected primary answer ends the login with its own error; after an accepted one, a received quick-auth answer gives exactly ClassifyQuick of it; the result is never Authed |
| UiData.NoAreaContainsNothing | tui/src/component/form/input.rs:38 | a widget that has not been drawn is hit by no click |
| UiData.Rect.Contains | tui/src/component/form/checkbox.rs:190-191 | a hit rectangle is not empty and the cell is at or after its corner, never in the last row or column; without saturation it holds exactly the cells of its width-by-height block |
| UiData.Channel.Send | tui/src/component/form/input.rs:116 | sending appends the action to what was sent |
| UiData.IdCounter.FetchAdd | tui/src/component/form/input.rs:34 | `fetch_add(1)` returns the old value and wraps around at 2^16 |
| UiData.NextId | tui/src/component/form/input.rs:34 | one more `fetch_add(1)` after `k` draws gives the id at offset `k + 1`, wrap-around included |
| UiData.ConsecutiveIdsDistinct | tui/src/component/form/input.rs:26-28 | up to 2^16 ids drawn one after another are pairwise distinct, wrap-around included |
| InputWidget.AfterKey | tui/src/component/form/input.rs:109-128 | a release changes nothing; a character appends its UTF-8 bytes; Backspace drops exactly the last byte of non-empty content; other keys change nothing |
| InputWidget.RedrawsIffChanged | tui/src/component/form/input.rs:112-121 | a key asks for a redraw exactly when it changes the content |
| InputWidget.TypeThenErase | tui/src/component/form/input.rs:112-121 | typing an ASCII character and pressing Backspace is safe and restores the content |
| InputWidget.EraseWideCharPanics | tui/src/component/form/input.rs:115 | Backspace right after typing a non-ASCII character would cut inside it, so `truncate` panics |
| InputWidget.EditText | tui/src/component/form/input.rs:109-128 | the edit a key means for the typed text: Backspace removes the last character, a character is appended, other keys and releases change nothing |
| InputWidget.AfterKeyIntended | tui/src/component/form/input.rs:112-117 | the corrected Backspace removes a whole character: it agrees with AfterKey wherever that does not panic, and cuts non-empty content at a character boundary with only continuation bytes after it |
| InputWidget.AfterKeyIntendedEdits | tui/src/component/form/input.rs:109-128 | on the encoding of any text, the corrected key handling yields the encoding of the edited text |
| InputWidget.TypeThenEraseIntended | tui/src/component/form/input.rs:112-121 | with the corrected Backspace, typing any character and erasing it restores any content |
| InputWidget.Fill | tui/src/component/form/input.rs:85-90 | `repeat`: `n` copies of the byte |
| InputWidget.Window | tui/src/component/form/input.rs:84-95 | the shown text is always 16 bytes; when masked, one `*` per content byte up to 16, then spaces |
| InputWidget.ShortContentShownWhole | tui/src/component/form/input.rs:89-90 | short unmasked content is shown whole, followed by spaces |
| InputWidget.SelectedShowsEnd | tui/src/component/form/input.rs:91-92 | a selected field shows the last 16 bytes of long content |
| InputWidget.UnselectedShowsStart | tui/src/component/form/input.rs:93-94 | an unselected field shows the first 16 bytes of long content |
| InputWidget.MaskedShowsOnlyLength | tui/src/component/form/input.rs:84-88 | a masked field shows a star exactly at the first min(length, 16) positions and spaces after them, so contents of equal length look the same |
| InputWidget.Input.constructor | tui/src/component/form/input.rs:44-56 | a fresh field takes the counter's next id and starts empty, unselected, unmasked and not yet drawn |
| InputWidget.Input.HandleKey | tui/src/component/form/input.rs:109-128 | the content becomes AfterKey of the old content, and one Draw is sent exactly when Redraws holds |
| InputWidget.Input.HandleMouse | tui/src/component/form/input.rs:130-139 | a left click sends SelectInput with the field's id; other mouse events send nothing |
| InputWidget.Input.HandleSignal | tui/src/component/form/input.rs:141-147 | `InputSelected(i)` selects the field exactly when `i` is its id; other signals change nothing |
| InputWidget.Input.ToggleSelect | tui/src/component/form/input.rs:179-181 | flips `selected` |
| InputWidget.Input.TogglePassword | tui/src/component/form/input.rs:159-161 | flips `password` |
| InputWidget.Input.Length | tui/src/component/form/input.rs:183-185 | the name's byte length plus 17, when that fits in u16 |
| InputWidget.Input.VisibleText | tui/src/component/form/input.rs:84-95 | the text `draw` builds is Window of the field's state |
| CheckboxWidget.Checkbox.constructor | tui/src/component/form/checkbox.rs:24-39 | a fresh box takes the counter's next id and starts without a caption, unticked and not yet drawn |
| CheckboxWidget.Checkbox.HandleSignal | tui/src/component/form/checkbox.rs:54-60 | `CheckboxSelected(i)` ticks the box exactly when `i` is its id; other signals change nothing |
| CheckboxWidget.Checkbox.HandleMouse | tui/src/component/form/checkbox.rs:87-96 | a left click sends SelectCheckbox with the box's id |
| CheckboxWidget.Checkbox.Length | tui/src/component/form/checkbox.rs:120-122 | the caption's character count plus 2, when that fits in u16 |
| CheckboxWidget.Label | tui/src/component/form/checkbox.rs:169-172 | every carrier's caption is two characters |
| CheckboxWidget.FourIdsDistinct | tui/src/component/form/checkbox.rs:37-39 | four ids drawn in a row from the counter are pairwise distinct |
| CheckboxWidget.Group.SuffixOf | tui/src/component/form/checkbox.rs:222-244 | the carrier found for an id is one whose box has that id; None means no box has it |
| CheckboxWidget.Group.constructor | tui/src/component/form/checkbox.rs:125-134 | four distinct boxes with four consecutive, distinct ids, all on the group's channel |
| CheckboxWidget.Group.UpdateStruct | tui/src/component/form/checkbox.rs:137-148 | afterwards exactly the selected carrier's box is ticked |
| CheckboxWidget.Group.Select | tui/src/component/form/checkbox.rs:150-153 | the carrier is remembered and exactly its box is ticked |
| CheckboxWidget.Group.Length | tui/src/component/form/checkbox.rs:155-160 | the sum of the four boxes' lengths, which must fit in u16 |
| CheckboxWidget.Group.Init | tui/src/component/form/checkbox.rs:168-178 | each box gets its carrier's caption, exactly the selected carrier's box is ticked, and a fresh group is 16 columns long |
| CheckboxWidget.Group.HandleSignal | tui/src/component/form/checkbox.rs:222-244 | `CheckboxSelected(i)` selects the carrier whose box has id `i`, ticks exactly the boxes with that id and sends Draw; for a foreign id no box stays ticked |
| CheckboxWidget.Group.HitBox | tui/src/component/form/checkbox.rs:189-202 | the box found contains the cell; none is found exactly when no box contains it |
| CheckboxWidget.Group.HandleMouse | tui/src/component/form/checkbox.rs:189-202 | a left click on a box sends SelectCheckbox with that box's id; the boxes are tried in the order mobile, telecom, unicom, local |
| MenuWidget.Command | tui/src/component/menu/mod.rs:121-136 | "set account" jumps to the form page and "log out" asks for a logout |
| MenuWidget.CommandInjective | tui/src/component/menu/mod.rs:121-136 | the two entries ask for different actions |
| MenuWidget.Prev | tui/src/component/menu/mod.rs:99-102 | Up moves the cursor one entry up and wraps from the first entry to the last |
| MenuWidget.Next | tui/src/component/menu/mod.rs:103-106 | Down moves the cursor one entry down and wraps from the last entry to the first |
| MenuWidget.PrevNextInverse | tui/src/component/menu/mod.rs:99-106 | Up undoes Down and Down undoes Up |
| MenuWidget.TwoEntriesToggle | tui/src/component/menu/mod.rs:99-106 | with two entries both arrows switch to the other entry |
| MenuWidget.FirstHit | tui/src/component/menu/mod.rs:83-90 | the first entry area that contains the cell, or proof that none does |
| MenuWidget.Menu.constructor | tui/src/component/menu/mod.rs:26-33 | a fresh menu has its cursor on the first of two SetUser entries |
| MenuWidget.Menu.Init | tui/src/component/menu/mod.rs:36-39 | the entries become "set account" and "log out" |
| MenuWidget.Menu.Execute | tui/src/component/menu/mod.rs:121-136 | running an entry sends its command |
| MenuWidget.Menu.HandleKey | tui/src/component/menu/mod.rs:96-113 | unless the key is a release: Up and Down move the cursor round-robin and send Draw, and Enter sends the current entry's command; anything else changes nothing |
| MenuWidget.Menu.HandleMouse | tui/src/component/menu/mod.rs:80-94 | a left click on an entry moves the cursor to the first entry hit, then sends its command and Draw; otherwise nothing changes |
| FormWidget.Flip | tui/src/component/form/mod.rs:85-88 | Tab always changes the focused field |
| FormWidget.AccountForm.Account | tui/src/component/form/mod.rs:76-80 | the submitted account is both fields' contents and the chosen carrier |
| FormWidget.AccountForm.constructor | tui/src/component/form/mod.rs:34-44 | a fresh form has two distinct fields with distinct ids, a valid chooser, one shared channel, and focus on the id field |
| FormWidget.AccountForm.Init | tui/src/component/form/mod.rs:47-56 | the fields are named 学号 and 密码, each box gets its carrier's caption and keeps its area, and the chooser ticks exactly the selected carrier; on a fresh form the id field is selected and the password masked |
| FormWidget.AccountForm.HandleKey | tui/src/component/form/mod.rs:69-109 | Enter submits the account and Esc asks for the menu, without reaching a field; Tab moves the focus, flips both fields and sends Draw, and then goes to the newly focused field like every other key; the focus stays consistent |
| FormWidget.AccountForm.HandleSignal | tui/src/component/form/mod.rs:111-145 | only the first DaemonPong asks for the account; a received account fills the fields and ticks its carrier; InputSelected focuses the field with that id; CheckboxSelected goes to the chooser; other signals change nothing |
| FormWidget.AccountForm.ClickActions | tui/src/component/form/mod.rs:147-171 | at most one action; none unless it is a left click; a click on the id field selects it; a submitted account is the form's account, sent only from the button |
| FormWidget.AccountForm.HandleMouse | tui/src/component/form/mod.rs:147-171 | what is sent is ClickActions of the event |

## Left out

- Network I/O, the `ping` probe and `get_index_page`/`get_auth_info`: every HTTP exchange is a parameter (`post`, `get`) or an input string. `get_index_page`'s `ok_or` and the async/blocking duplication are not modelled separately: the two `auth` bodies and the two `logout` bodies have the same logic.
- Auth.ScriptTagCaptures: the regular expression engine behind `get_js_url` is not reimplemented. The model states what a match of the pattern looks like. It does not model which match the engine picks (leftmost, shortest).
- Utf8.DecodeLossy: `from_utf8_lossy` is modelled by its documented rule: each maximal well-formed prefix that breaks off becomes one U+FFFD. Its return of a borrowed or an owned string is not modelled.
- Auth.EncodeComponent: the serializer is modelled per character, from the UTF-8 bytes of each non-ASCII character. This is the same output as the byte-wise serializer.
- Every `send(..).unwrap()` on the action channel would panic if the receiving half were dropped. The channel is unbounded and its receiver lives as long as the application, so a send always succeeds here.
- The `str` functions count characters here, while Rust counts bytes. The slices are the same wherever Rust does not panic. Auth.GetVariableValueDefined states that the last character of a quoted value is a single byte.
- `Debug` and `Display` implementations, the `#[cfg(debug_assertions)]` printing, and the `serde` derives.
- Drawing and layout: only the 16 bytes an input field shows are modelled (InputWidget.Window). Areas are fields that the draw code would set.
- `tui/src/data.rs` is not part of this model. `Action`, `Signal`, `Suffix` and `UserInfo` are reconstructed from their uses in the widgets. Terminal, resize and error signals are one `Other` signal.
- The carrier that `Group::default()` starts with comes from `Suffix`'s `Default`, which is not part of this model. The Group constructor takes it as a parameter.
- `register_action_sender` is folded into the constructors, which take the channel. So the `unwrap` of a missing sender cannot happen in the model.
- Each `init` returning `ComponentInfo`, the `mouse_area` getters, the `content`/`name` accessors, `tick`, and `Group::selected`, which is read as a field.
- The process-wide `AtomicU16` id counters are explicit IdCounter objects passed to the constructors. Concurrency on them is not modelled.
- InputWidget.Input.Length: `name.len() as u16` truncates. The following `+ 1 + 16` must not overflow, which is a precondition, since a Rust debug build panics there.
- CheckboxWidget.Group.Length: the u16 sum of the four box lengths must not overflow, which is a precondition for the same reason.
- The daemon, the configuration store, the control server and the service binary are outside the modelled core.

## Findings

| source | as written | input that shows it | evidently intended | confidence | as-written member | corrected member |
|---|---|---|---|---|---|---|
| api/src/auth.rs:32-34 | the root of the quoted URL is computed, with two `unwrap`s, before the `?` check, so a quoted string without `://` panics | a page `<a href="index.html">` | a page whose quoted URL has no root is malformed like one without `?`: `None`, then an invalid-response error | high; not executed | Auth.RelativeIndexLinkPanics | Auth.ParseIndexPageChecked |
| tui/src/component/form/input.rs:112-117 | Backspace truncates the content by one byte, and `truncate` panics when that cut falls inside a character | typing `é` (two bytes) and pressing Backspace | remove the whole last character, as `String::pop` does | high; not executed | InputWidget.EraseWideCharPanics | InputWidget.AfterKeyIntended |
| api/src/auth.rs:82 | `get_root_url(url).split(':')[0]` keeps only the scheme, because the first `:` is the one in `://` | auth URL `http://10.101.2.205:8080/api/login` gives logout root `http` | `http://10.101.2.205`, the host without its port, which is the base the tests log out from | high; not executed | Auth.LogoutRootIsScheme | Auth.GetJsAuthInfoCorrected |
