# GoogleBloggerService in Dafny

BotDeScans publishes a manga chapter to several services and then announces it on a
Blogger blog. This project models the two pure parts of `GoogleBloggerService` and proves
properties about them:

- **Posting** (`PostAsync`). Three configuration guards run in a fixed order: the Blogger
  URL, the Blogger id, and whether the URL is an absolute URI. The first guard that fails
  gives the single failure reason. If all pass, the service builds the insert request for
  the post. The post's URL slug is the blog host, the sanitised title, a `-`, and the
  sanitised chapter number. Sanitising lower-cases the text, turns spaces into `-`, and
  deletes every run of characters outside `[0-9a-zA-Z-]` (the `UrlPattern` regex).
- **Announcement rendering** (`GenerateHtmlAsync`, `ReplaceTemplateKeys`,
  `CreateReplacingTemplateKeyMaps`). The template is loaded, or its load fails. A key map
  is then built from the service's 14 main `##KEY##` tokens, `##COVER_IMAGE##` among
  them. Each token maps to a value taken from the publish state, with a fallback when the
  value is missing; a missing chapter name becomes `Capítulo {number}`. After each main
  key comes a companion `##EXISTS_KEY##`, so the map has 28 keys. The companion's value
  hides the template's element when the main value is blank or the `#` placeholder. The
  template is rendered by `string.Replace` with each key in turn, in the key map's order.

Modules:

- `Wrappers`: `Option` and `Result`.
- `DotNetText`: the .NET string operations the service relies on:
  - ordinal `string.Replace`, left to right, without rescanning inserted text
  - `string.IsNullOrWhiteSpace`, with the `char.IsWhiteSpace` set
  - `TrimStart(char)`
  - ASCII `ToLower`
- `Publish`: the parts of `PublishState` the service reads.
- `BloggerPost`: `PostAsync`, the slug, and the `UrlPattern` filter.
- `BloggerTemplate`: the key map, rendering, and `GenerateHtmlAsync`.

Several things are inputs instead of code:

- **Configuration.** The configured `Blogger:Url` and `Blogger:Id` are `Option<string>` inputs (`None` is null).
- **URI parsing.** `Uri.TryCreate(url, UriKind.Absolute)` followed by `Uri.Host` becomes a function parameter `absoluteHost: string -> Option<string>`.
- **The Blogger call.** `PostAsync` returns the `InsertRequest` (the post and the blog id) that the source would execute.
- **The template file.** Its contents are an `Option<string>`, where `None` means the read threw.
- **The cover image.** The base64 cover is an opaque string input.
- **The key map's lambdas.** Each `Func<PublishState, string>` is the datatype `StateFunc`: the lambda of a main field, or the companion lambda wrapping it. Its `Invoke` applies it.

## Model

| member | source | states |
|---|---|---|
| BloggerPost.PostAsync | BotDeScans.App/Services/GoogleBloggerService.cs:21-48 | a blank or null URL gives exactly "Blogger url is undefined." whatever the id; otherwise a blank id gives "Blogger id is undefined."; otherwise a URL that is not absolute gives "Unable to identify Blogger url as valid link."; the result fails iff one of the three guards fails, and a failure has exactly one reason; success carries the configured blog id and a post of the given content and title, the single label and the slug |
| BloggerPost.Slug | BotDeScans.App/Services/GoogleBloggerService.cs:41-43 | the slug starts with the host, continues with the sanitised title, and ends with "-" and the sanitised chapter number; everything after the host is in [0-9a-z-]; it is longer than the host and at most as long as host, title, dash and number together |
| BloggerPost.Sanitize | BotDeScans.App/Services/GoogleBloggerService.cs:42-43 | the sanitised text contains only [0-9a-z-] characters (so only characters of [0-9a-zA-Z-]), never a space, and is no longer than its input |
| BloggerPost.SanitizeSteps | BotDeScans.App/Services/GoogleBloggerService.cs:42-43 | sanitising is, in one line, the URL filter applied to the text with each space made a hyphen and every other character lower-cased |
| BloggerPost.SanitizeFixesSlugs | BotDeScans.App/Services/GoogleBloggerService.cs:42-43 | text that is already made of [0-9a-z-] is left unchanged by sanitising |
| BloggerPost.SanitizeIdempotent | BotDeScans.App/Services/GoogleBloggerService.cs:42-43 | sanitising twice gives the same as sanitising once |
| BloggerPost.SanitizeExample | BotDeScans.App/Services/GoogleBloggerService.cs:41-43 | "My Title!" sanitises to "my-title" and "10" to "10" |
| BloggerPost.LowerDashedWords | BotDeScans.App/Services/GoogleBloggerService.cs:42-43 | two words without spaces joined by one space are lower-cased and joined by "-" |
| BloggerPost.ExampleLowerDashed | BotDeScans.App/Services/GoogleBloggerService.cs:42 | lower-casing "My Title!" and turning spaces into dashes gives "my-title!" |
| BloggerPost.ExampleFiltered | BotDeScans.App/Services/GoogleBloggerService.cs:127-128 | the UrlPattern removal turns "my-title!" into "my-title" |
| BloggerPost.DropTrailingUnmatched | BotDeScans.App/Services/GoogleBloggerService.cs:127-128 | one trailing character outside [0-9a-zA-Z-] after characters of the class is removed and the rest kept |
| BloggerPost.RemoveUrlPatternMatches | BotDeScans.App/Services/GoogleBloggerService.cs:127-128 | `UrlPattern().Replace(s, "")`, deleting each maximal run left to right; its promise is carried by RemoveMatchesKeepsUrlChars (equal to the reference filter) and KeepUrlCharsContents |
| BloggerPost.UnmatchedRunLength | BotDeScans.App/Services/GoogleBloggerService.cs:127 | the match of [^0-9a-zA-Z-]+ at the start of a string is maximal: every character in it is outside the class and the next one, if any, is inside |
| BloggerPost.RemoveMatchesKeepsUrlChars | BotDeScans.App/Services/GoogleBloggerService.cs:127-128 | deleting every maximal run of characters outside [0-9a-zA-Z-] equals the reference filter that keeps the class's characters one by one |
| BloggerPost.KeepUrlCharsContents | BotDeScans.App/Services/GoogleBloggerService.cs:127-128 | the filter keeps a character iff it occurs in the input and is in the class; it never lengthens; text wholly in the class is unchanged |
| BloggerPost.KeepUrlCharsAppend | BotDeScans.App/Services/GoogleBloggerService.cs:127-128 | filtering distributes over concatenation |
| BloggerPost.KeepUrlCharsSkipsRun | BotDeScans.App/Services/GoogleBloggerService.cs:127-128 | a leading run of characters outside the class contributes nothing to the filtered text |
| DotNetText.Replace | BotDeScans.App/Services/GoogleBloggerService.cs:83 | ordinal `string.Replace`, left to right, without rescanning inserted text; its promises are carried by ReplaceUnchanged, ReplaceLength, ReplaceChars, ReplaceWhole, ReplaceOneChar, ReplaceAppend and ReplaceCharAppend |
| DotNetText.ReplaceAppend | BotDeScans.App/Services/GoogleBloggerService.cs:83 | when no occurrence of the pattern starts in a and ends in b, replacing in a + b is replacing in a and in b separately |
| DotNetText.ReplaceAppendMatch | BotDeScans.App/Services/GoogleBloggerService.cs:83 | the case of ReplaceAppend where the pattern starts the text |
| DotNetText.ReplaceAppendSkip | BotDeScans.App/Services/GoogleBloggerService.cs:83 | the case of ReplaceAppend where the pattern does not start the text |
| DotNetText.ReplaceCharByChar | BotDeScans.App/Services/GoogleBloggerService.cs:42 | replacing one character by another keeps the length and changes exactly the positions holding that character |
| DotNetText.IsNullOrWhiteSpace | BotDeScans.App/Services/GoogleBloggerService.cs:27-30 | `string.IsNullOrWhiteSpace` with the `char.IsWhiteSpace` set, null as None; used by the PostAsync guards and by ExistsValue, whose contracts state its effect; BlankAppend states how it splits over concatenation |
| DotNetText.TrimStart | BotDeScans.App/Services/GoogleBloggerService.cs:114 | `TrimStart('#')`; its promise is carried by TrimStartShape |
| DotNetText.ToLower | BotDeScans.App/Services/GoogleBloggerService.cs:42-43 | ASCII lower-casing; its promise is carried by ToLowerShape, ToLowerAppend and ToLowerKeepsSpaces |
| DotNetText.ReplaceUnchanged | BotDeScans.App/Services/GoogleBloggerService.cs:83 | string.Replace leaves the text unchanged iff the pattern does not occur in it or is replaced by itself |
| DotNetText.ReplaceLength | BotDeScans.App/Services/GoogleBloggerService.cs:42-43 | Replace never shortens the text when the replacement is at least as long as the pattern, and never lengthens it when it is at most as long |
| DotNetText.ReplaceChars | BotDeScans.App/Services/GoogleBloggerService.cs:83 | every character of Replace's result comes from the text or from the replacement |
| DotNetText.ReplaceRemovesChar | BotDeScans.App/Services/GoogleBloggerService.cs:96 | replacing a character by text without it leaves no occurrence of it |
| DotNetText.ReplaceWhole | BotDeScans.App/Services/GoogleBloggerService.cs:83 | replacing a text that is exactly the pattern gives the replacement |
| DotNetText.ReplaceOneChar | BotDeScans.App/Services/GoogleBloggerService.cs:42-43 | a single occurrence of a character between two strings without it is the only thing replaced |
| DotNetText.ReplaceCharCons | BotDeScans.App/Services/GoogleBloggerService.cs:96 | with a one-character pattern Replace works character by character |
| DotNetText.ReplaceCharAppend | BotDeScans.App/Services/GoogleBloggerService.cs:96 | with a one-character pattern Replace distributes over concatenation |
| DotNetText.OccursChar | BotDeScans.App/Services/GoogleBloggerService.cs:96 | a one-character pattern occurs in a text iff its character does |
| DotNetText.OccursTail | BotDeScans.App/Services/GoogleBloggerService.cs:83 | when the pattern does not start the text, it occurs in the text iff it occurs in the text after its first character |
| DotNetText.BlankAppend | BotDeScans.App/Services/GoogleBloggerService.cs:116 | a concatenation is white space only iff both parts are |
| DotNetText.TrimStartShape | BotDeScans.App/Services/GoogleBloggerService.cs:114 | TrimStart('#') returns a suffix of the key; what it drops is all '#' and what it keeps does not start with '#' |
| DotNetText.ToLowerShape | BotDeScans.App/Services/GoogleBloggerService.cs:42-43 | lower-casing keeps the length, maps each character on its own and leaves no upper-case ASCII letter |
| DotNetText.ToLowerAppend | BotDeScans.App/Services/GoogleBloggerService.cs:42-43 | lower-casing distributes over concatenation |
| DotNetText.ToLowerKeepsSpaces | BotDeScans.App/Services/GoogleBloggerService.cs:42-43 | the lower-cased text contains a space iff the original does |
| BloggerTemplate.FieldValue | BotDeScans.App/Services/GoogleBloggerService.cs:92-108 | fallbacks: a null chapter name gives "Capítulo " and the number, a null volume "?", a null message "", a null download link "#", a null Box PDF reader ""; present values are kept as they are: the title, the number, the chapter name even when empty, the volume, each link and the reader; the message has each line feed replaced by <br>, keeps no line feed, and is kept as it is when it has none; the cover value is exactly "data:image/png;base64," followed by the cover |
| BloggerTemplate.ExistsValue | BotDeScans.App/Services/GoogleBloggerService.cs:115-118 | the companion value is either the hide style or ""; it is the hide style iff the main value is empty, white space only, or "#" |
| BloggerTemplate.CompanionHidesExactlyMissing | BotDeScans.App/Services/GoogleBloggerService.cs:92-118 | the companion value is the hide style exactly when the state lacks the field's value, as defined independently by Hidden: a null or blank/"#" link or reader is hidden, a null chapter name or volume is shown through its fallback, an empty chapter name is hidden, the cover is always shown |
| BloggerTemplate.LineBreaksBlank | BotDeScans.App/Services/GoogleBloggerService.cs:96 | after turning line feeds into <br> a message is blank iff it was blank and had no line feed |
| BloggerTemplate.LineBreaksPlaceholder | BotDeScans.App/Services/GoogleBloggerService.cs:96 | after turning line feeds into <br> a message is "#" iff it was "#" |
| BloggerTemplate.ShownText | BotDeScans.App/Services/GoogleBloggerService.cs:116 | a text longer than one character that starts with a non-blank character is neither blank nor "#" |
| BloggerTemplate.MainKeyMaps | BotDeScans.App/Services/GoogleBloggerService.cs:90-109 | no main key is empty, so each can be given to string.Replace |
| BloggerTemplate.WithCompanions | BotDeScans.App/Services/GoogleBloggerService.cs:111-122 | adding companions doubles the number of entries and keeps every key non-empty |
| BloggerTemplate.WithCompanionsAt | BotDeScans.App/Services/GoogleBloggerService.cs:111-122 | main entry i sits at position 2i and its companion right after it |
| BloggerTemplate.WithCompanionsAppend | BotDeScans.App/Services/GoogleBloggerService.cs:112-121 | handling one more main entry appends it and then its companion |
| BloggerTemplate.WithCompanionsStep | BotDeScans.App/Services/GoogleBloggerService.cs:112-121 | the first i+1 main entries with companions are the first i with companions, then entry i, then its companion |
| BloggerTemplate.WithCompanionsPrefix | BotDeScans.App/Services/GoogleBloggerService.cs:111-122 | the first i main entries with their companions are the first 2i entries of the whole map |
| BloggerTemplate.KeyMaps | BotDeScans.App/Services/GoogleBloggerService.cs:88-125 | every key of the full map is non-empty |
| BloggerTemplate.NameTokens | BotDeScans.App/Services/GoogleBloggerService.cs:114 | every main key and companion key is a token "##" name "##" with a name free of '#', and the companion key "##EXISTS_" + TrimStart(main key, '#') is the token of "EXISTS_" and the main key's name |
| BloggerTemplate.ExistsKey | BotDeScans.App/Services/GoogleBloggerService.cs:114 | "##EXISTS_" followed by the main key without its leading '#'; its promise is carried by TokenShape and NameTokens |
| BloggerTemplate.TokenShape | BotDeScans.App/Services/GoogleBloggerService.cs:114 | for a name free of '#', the companion key derived from its token is the token of "EXISTS_" and the name |
| BloggerTemplate.NameStart | BotDeScans.App/Services/GoogleBloggerService.cs:92-108 | every key name is non-empty and does not start with 'E', so no name looks like a companion's |
| BloggerTemplate.NameHashFree | BotDeScans.App/Services/GoogleBloggerService.cs:92-108 | no key name contains '#' |
| BloggerTemplate.NameInjective | BotDeScans.App/Services/GoogleBloggerService.cs:92-108 | two fields have the same key name iff they are the same field |
| BloggerTemplate.TokenInjective | BotDeScans.App/Services/GoogleBloggerService.cs:114 | two tokens are equal iff their names are |
| BloggerTemplate.KeyNameInjective | BotDeScans.App/Services/GoogleBloggerService.cs:114 | the names inside two keys are equal iff the keys belong to the same field and are both main or both companion |
| BloggerTemplate.KeyOfInjective | BotDeScans.App/Services/GoogleBloggerService.cs:120-121 | two keys are equal iff they are of the same field and both main or both companion |
| BloggerTemplate.FieldsDistinct | BotDeScans.App/Services/GoogleBloggerService.cs:90-109 | the 14 main fields are listed once each |
| BloggerTemplate.KeyMapsAt | BotDeScans.App/Services/GoogleBloggerService.cs:111-122 | the map has 28 entries; entry 2i is main key i with its lambda, entry 2i+1 is its companion key with the companion lambda |
| BloggerTemplate.KeyMapsKey | BotDeScans.App/Services/GoogleBloggerService.cs:111-122 | entry p is the main key of field p/2 for even p and its companion for odd p |
| BloggerTemplate.KeyMapsWellFormed | BotDeScans.App/Services/GoogleBloggerService.cs:88-125 | all 28 keys are tokens and no two are equal |
| BloggerTemplate.AddsFreshKeys | BotDeScans.App/Services/GoogleBloggerService.cs:120-121 | neither the main key nor the companion key added for entry i is already in the dictionary, so no Add throws |
| BloggerTemplate.CreateReplacingTemplateKeyMaps | BotDeScans.App/Services/GoogleBloggerService.cs:88-125 | the loop of Adds builds exactly the key map of main entries each followed by its companion: 28 distinct token keys |
| BloggerTemplate.Render | BotDeScans.App/Services/GoogleBloggerService.cs:82-83 | the left fold of Replace over the key map; its promises are carried by RenderWithoutKeys, RenderSplit, RenderInContext, RenderKeyAlone, RenderedField and RenderChained |
| BloggerTemplate.ReplaceTemplateKeys | BotDeScans.App/Services/GoogleBloggerService.cs:79-86 | the loop's result is the left fold of string.Replace over the key map, in its order |
| BloggerTemplate.GetBloggerTemplate | BotDeScans.App/Services/GoogleBloggerService.cs:60-77 | fails iff the file cannot be read, then with exactly "Unable to read blogger release template file: blogger-template.html"; otherwise the file's text |
| BloggerTemplate.GenerateHtml | BotDeScans.App/Services/GoogleBloggerService.cs:50-77 | an unreadable template gives exactly the failure "Unable to read blogger release template file: blogger-template.html"; otherwise the result is the rendered template |
| BloggerTemplate.RenderWithoutKeys | BotDeScans.App/Services/GoogleBloggerService.cs:82-83 | a template in which no key occurs comes back unchanged |
| BloggerTemplate.RenderSplit | BotDeScans.App/Services/GoogleBloggerService.cs:82-83 | rendering with a key map is rendering with its first k entries and then with the rest |
| BloggerTemplate.TokenInToken | BotDeScans.App/Services/GoogleBloggerService.cs:92-121 | a token occurs inside another token only when they are equal |
| BloggerTemplate.TokenNotIn | BotDeScans.App/Services/GoogleBloggerService.cs:92-121 | a token cannot occur in a value that holds no key: one shorter than five characters or without two adjacent '#' (a single '#', as in a link fragment or a hashtag, is allowed) |
| BloggerTemplate.NoDoubleHashAppend | BotDeScans.App/Services/GoogleBloggerService.cs:82-83 | two texts without adjacent '#' stay so when joined, unless the first ends and the second starts with '#' |
| BloggerTemplate.NoHashNoDoubleHash | BotDeScans.App/Services/GoogleBloggerService.cs:82-83 | a text without '#' has no two adjacent '#' |
| BloggerTemplate.HideStyleHoldsNoKey | BotDeScans.App/Services/GoogleBloggerService.cs:117 | the hide style has no two adjacent '#', so inserting it creates no key |
| BloggerTemplate.NoKeyAcrossBefore | BotDeScans.App/Services/GoogleBloggerService.cs:83 | no key starts in text without adjacent '#' that does not end in '#' and ends after it |
| BloggerTemplate.NoKeyAcrossAfter | BotDeScans.App/Services/GoogleBloggerService.cs:83 | no key starts before text without adjacent '#' that does not start with '#' and ends in it |
| BloggerTemplate.ReplaceBefore | BotDeScans.App/Services/GoogleBloggerService.cs:83 | one key's Replace keeps such text in front of the rest unchanged |
| BloggerTemplate.ReplaceAfter | BotDeScans.App/Services/GoogleBloggerService.cs:83 | one key's Replace keeps such text after the rest unchanged |
| BloggerTemplate.ReplaceInContext | BotDeScans.App/Services/GoogleBloggerService.cs:83 | one key's Replace on a + m + b changes only m when a and b are such text |
| BloggerTemplate.RenderInContext | BotDeScans.App/Services/GoogleBloggerService.cs:82-83 | a template a + m + b renders as a, then m rendered, then b, whenever a and b have no two adjacent '#', a does not end in '#' and b does not start with '#' |
| BloggerTemplate.RenderKeyPrefix | BotDeScans.App/Services/GoogleBloggerService.cs:82-83 | rendering a key with the entries up to and including it gives that key's value |
| BloggerTemplate.RenderThroughKey | BotDeScans.App/Services/GoogleBloggerService.cs:82-83 | rendering key j becomes rendering key j's value with the entries after j |
| BloggerTemplate.RenderKeyAlone | BotDeScans.App/Services/GoogleBloggerService.cs:82-83 | a template that is one key renders to its value when no later key occurs in the value |
| BloggerTemplate.RenderedEntry | BotDeScans.App/Services/GoogleBloggerService.cs:79-122 | a template that is one of the 28 keys renders to that key's value when the value holds no key (no two adjacent '#', or shorter than five) |
| BloggerTemplate.FieldEntries | BotDeScans.App/Services/GoogleBloggerService.cs:111-122 | the entries of a field's main key and companion key and the values they give for a state |
| BloggerTemplate.RenderedMain | BotDeScans.App/Services/GoogleBloggerService.cs:79-108 | a main key renders to its field's value when the value holds no key |
| BloggerTemplate.RenderedCompanion | BotDeScans.App/Services/GoogleBloggerService.cs:79-122 | a companion key always renders to the companion value of its field |
| BloggerTemplate.RenderedField | BotDeScans.App/Services/GoogleBloggerService.cs:79-122 | a main key and its companion render to the field's value and its companion value, when the value holds no key |
| BloggerTemplate.RenderedLink | BotDeScans.App/Services/GoogleBloggerService.cs:98-104 | a link the run did not produce renders as "#" and its companion as the hide style; a produced link that holds no key (a Mega link with its single '#' included) renders as itself, and its companion is the hide style iff the link is blank or "#", else "" |
| BloggerTemplate.RenderedMissingLink | BotDeScans.App/Services/GoogleBloggerService.cs:98-104 | a null link renders as "#" and its companion as the hide style |
| BloggerTemplate.RenderedPresentLink | BotDeScans.App/Services/GoogleBloggerService.cs:98-104 | a produced link that holds no key renders as itself; its companion is the hide style iff the link is blank or "#", else "" |
| BloggerTemplate.RenderedMegaLinkExample | BotDeScans.App/Services/GoogleBloggerService.cs:98 | the Mega link "https://mega.nz/file/abc#def" renders as itself and its companion as "" |
| BloggerTemplate.RenderedMessage | BotDeScans.App/Services/GoogleBloggerService.cs:96 | a message without two adjacent '#' renders with each line feed turned into <br> |
| BloggerTemplate.LineBreaksNoDoubleHash | BotDeScans.App/Services/GoogleBloggerService.cs:96 | turning line feeds into <br> never puts two '#' side by side |
| BloggerTemplate.RenderedTwoLines | BotDeScans.App/Services/GoogleBloggerService.cs:96 | a message of two lines without two adjacent '#' renders as the lines joined by <br> |
| BloggerTemplate.RenderedHashtagMessage | BotDeScans.App/Services/GoogleBloggerService.cs:96 | the message "novo #manga" renders as itself |
| BloggerTemplate.RenderedMessageExample | BotDeScans.App/Services/GoogleBloggerService.cs:96 | "line1\nline2" renders as "line1<br>line2" |
| BloggerTemplate.RenderedMainInContext | BotDeScans.App/Services/GoogleBloggerService.cs:79-108 | a main key inside such surrounding text renders to its field's value, with the text kept, when the value holds no key |
| BloggerTemplate.RenderedCompanionInContext | BotDeScans.App/Services/GoogleBloggerService.cs:79-122 | a companion key inside such surrounding text renders to its companion value, with the text kept |
| BloggerTemplate.RenderedPresentLinkInContext | BotDeScans.App/Services/GoogleBloggerService.cs:98-104 | a produced link that holds no key, inside such surrounding text, is inserted as it is |
| BloggerTemplate.MegaLinkHoldsNoKey | BotDeScans.App/Services/GoogleBloggerService.cs:98 | the example Mega link has no two adjacent '#' |
| BloggerTemplate.HrefSafe | BotDeScans.App/Services/GoogleBloggerService.cs:82-83 | `<a href="` and `">` cannot join a key |
| BloggerTemplate.RenderedHrefExample | BotDeScans.App/Services/GoogleBloggerService.cs:98 | `<a href="##MEGA_ZIP_LINK##">` with the Mega link "https://mega.nz/file/abc#def" renders as `<a href="https://mega.nz/file/abc#def">` |
| BloggerTemplate.DivSafe | BotDeScans.App/Services/GoogleBloggerService.cs:82-83 | `<div ` and `>` cannot join a key |
| BloggerTemplate.RenderedHiddenDivExample | BotDeScans.App/Services/GoogleBloggerService.cs:99-118 | `<div ##EXISTS_MEGA_PDF_LINK##>` with no Mega PDF link renders as `<div style="display: none !important;">` |
| BloggerTemplate.ParagraphSafe | BotDeScans.App/Services/GoogleBloggerService.cs:82-83 | `<p>` and `</p>` cannot join a key |
| BloggerTemplate.RenderedMessageInContext | BotDeScans.App/Services/GoogleBloggerService.cs:96 | `<p>##MESSAGE##</p>` with the message "line1\nline2" renders as `<p>line1<br>line2</p>` |
| BloggerTemplate.RenderedFieldChain | BotDeScans.App/Services/GoogleBloggerService.cs:82-83 | a field whose value is the key of a later field renders as that later field's value: inserted values are scanned by later keys |
| BloggerTemplate.RenderChained | BotDeScans.App/Services/GoogleBloggerService.cs:82-83 | when key j's value is key j2, a later key, rendering key j gives the value of key j2 |
| BloggerTemplate.RenderLaterKey | BotDeScans.App/Services/GoogleBloggerService.cs:82-83 | with the entries after j, a later key j2 renders to its value when no key after j2 occurs in that value |
| BloggerTemplate.RenderRescansValues | BotDeScans.App/Services/GoogleBloggerService.cs:82-108 | a message that is "##COVER_IMAGE##" renders as the cover image, not as the literal key, for any cover without two adjacent '#' |
| BloggerTemplate.SuffixKeys | BotDeScans.App/Services/GoogleBloggerService.cs:82-83 | the entries after any position still have distinct token keys |
| BloggerTemplate.ChainedRest | BotDeScans.App/Services/GoogleBloggerService.cs:82-83 | the entries after j keep entry j2 at position j2-j-1, with no later key in its value |

Rendering is deterministic by construction: `Render` is a function of the template, the
key map and the state.

## Left out

- The publish pipeline runner and its steps are registered at BotDeScans.App/Services/+Dependencies.cs:32. Their source is not part of this model.
- BotDeScans.UnitTests/Specs/Services/BoxServiceTests.cs is not part of this model. It tests a Box SDK wrapper whose source is not available.
- BotDeScans.App/Services/+Dependencies.cs only registers services for dependency injection, so there is no logic in it to model.
- `ExecuteAsync` on the Blogger insert request is a network call. It and its exceptions are left out: `PostAsync` returns the request it would execute.
- The template file is read from `config/blogger-template.html` under the application directory. The path and the stream read are left out; the model takes the file's contents or a read failure.
- `ImageService.CreateBase64File` is an image-processing call. The cover it produces is an opaque string input, and its exceptions (a missing cover file, for one) are left out: in the source they escape `GenerateHtmlAsync` uncaught.
- `Uri.TryCreate` and `Uri.Host` come from the URI library. They are the parameter `absoluteHost`, so the model does not say which URLs are absolute or what their host is.
- DotNetText.ToLower lower-cases ASCII letters only. .NET's culture-aware `ToLower` also lower-cases other letters: KELVIN SIGN U+212A becomes 'k' and is kept in the slug, while the model drops it. Non-ASCII upper-case letters therefore can give a different slug. Under a Turkish or Azeri current culture, ASCII 'I' lower-cases to 'ı' (U+0131), which `UrlPattern` then deletes, while the model keeps 'i'.
- RenderedEntry, RenderedMain, RenderedField and RenderedPresentLink, and their in-context versions, state the rendered text only for a value that holds no key, meaning no two adjacent '#'. RenderInContext states a template's rendering piece by piece only where the surrounding text cannot join a key; a whole template with several keys is rendered by `Render` itself, with no closed form stated for it. A value that contains a later key is rescanned by that key, as RenderedFieldChain states for one key; the general case is left to `Render` itself.
- `async`/`await` and the `CancellationToken` are left out; the model is sequential.
- The key map's order is the insertion order of the .NET `Dictionary`. The model is a sequence in that order, and it relies on enumerating a dictionary without removals in insertion order.
- `PublishState` and its `Info` and `Links` are not among the source files. Their field types are inferred from how the service reads them, and `InternalData` (only its cover path is read) is left out.
- Strings are sequences of UTF-16 code units in .NET. Here they are sequences of Dafny characters, so surrogate pairs are not modelled.
- The `Post` object of the Blogger library is reduced to the four fields the service sets.
