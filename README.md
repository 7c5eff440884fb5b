# a2w message segmenter in Dafny

a2w relays Alertmanager notifications to a WeCom (WeChat Work) group bot.
Its `send` handler renders the alert batch with a template. It then cuts the
rendered Markdown into messages that each fit WeCom's 4096-byte Markdown limit.
This project models that segmenter and proves its properties.

- **Template name.** The `tmpl` query value picks `<prefix>.tmpl`. An empty value picks `base.tmpl`.
- **Mention suffix.** It is empty when no `mention` value is given. Otherwise it is the WeCom empty line `"\n\n\n"` followed by `<@id>` for every id, in order.
- **Segmentation.** Content that fits together with the suffix becomes one message with no header. Longer content is split at every `"\n\n\n"`, as Go's `strings.Split` does. Every fragment is checked against the budget `4096 - 40 - len(suffix)`, where 40 is the length of the header format string. A negative budget (a suffix over 4056 bytes) makes `strings.Builder.Grow` panic before any fragment is checked. A fragment that cannot fit on its own fails the whole request, before anything is sent. The remaining fragments are packed greedily, each preceded by `"\n\n\n"`. Every body gets the suffix, and once the count N is known, message i gets the header `<font color="comment">**(i/N)**</font>`.

Strings are `seq<char>`, and each element stands for one byte, so `|s|` is Go's `len(s)`.

Files:
- `go_strings.dfy` (module `GoStrings`) models the Go library pieces the segmenter uses, `strings.Split` and `%d` rendering. It also holds `Join`, `HasPrefix` and `HasSuffix`, which the segmenter does not call; they are specification helpers for stating its properties.
- `a2w.dfy` (module `A2w`) models the constants, the template name, the mention suffix, the header and the segmentation. The segmentation is a functional specification, `Segmentation`, plus imperative methods that follow the handler's loops. `Segment` is proved equal to `Segmentation`. Each of its steps is proved against its own function: `BuildMentionSnippet` against `MentionSnippet`, `PackSnippets` against the greedy groups `Suffixed(Groups(..))`, and `AddHeaders` against the header formula `Header`.
- `a2w_properties.dfy` (module `A2wProperties`) holds what the segmentation guarantees.

The 4096-byte bound is guaranteed only for at most 99 messages. The budget reserves the length of the header format string, 40 bytes. The header actually prepended is `36 + digits(i) + digits(N)` bytes long. So the bound is proved under `N <= 99`. Beyond that it can break: `HeaderOverflow` builds content whose 100th message is 4098 bytes. Content with shorter bodies can still keep it.

## Model

| member | source | states |
|---|---|---|
| `GoStrings.IndexFrom` | a2w.go:179 | the result is the leftmost occurrence of the separator at or after the start, or -1 when there is none |
| `GoStrings.Split` | a2w.go:179 | `strings.Split` gives at least one piece, and the first piece is a prefix of the string |
| `GoStrings.SplitFirstCut` | a2w.go:179 | every cut is at the leftmost occurrence: no piece followed by the separator holds an occurrence that starts inside it, so four newlines split as `["", "\n"]` and never as `["\n", ""]` |
| `GoStrings.SplitWhole` | a2w.go:179 | the split gives a single piece exactly when the separator does not occur in the string |
| `GoStrings.JoinSplit` | a2w.go:179 | joining the fragments of a split with `"\n\n\n"` gives back the content exactly |
| `GoStrings.SplitPartsAvoidSeparator` | a2w.go:179 | no fragment contains the separator |
| `GoStrings.SplitJoin` | a2w.go:179 | splitting joined pieces that contain no newline gives back exactly those pieces |
| `GoStrings.Itoa` | a2w.go:215 | the `%d` rendering is non-empty, all digits, and starts with `0` only for zero |
| `GoStrings.ParseItoa` | a2w.go:215 | reading the rendered digits back gives the number |
| `GoStrings.ItoaWidth` | a2w.go:215 | a number renders in at most two digits exactly when it is at most 99 |
| `A2w.TemplateName` | a2w.go:114-118 | the name ends in `.tmpl`; it is `base.tmpl` for an empty prefix and the prefix plus `.tmpl` otherwise |
| `A2w.TemplateNameCollisions` | a2w.go:114-118 | two prefixes select the same file exactly when they are equal or both are `""` or `"base"` |
| `A2w.MentionSnippet` | a2w.go:121-129 | the suffix is empty exactly when no id is given, and starts with the empty line otherwise |
| `A2w.Mention` | a2w.go:126 | the marker is the id between `<@` and `>`, three bytes longer than the id, and the id can be read back from it |
| `A2w.Mentions` | a2w.go:125-127 | the markers of all ids in order are empty exactly when there is no id |
| `A2w.MentionsConcat` | a2w.go:125-127 | the markers of two id lists are the markers of the first followed by those of the second |
| `A2w.MentionSnippetLength` | a2w.go:124-130 | the suffix length is 0 for no ids, else 3 + 3 per id + the total id length |
| `A2w.BuildMentionSnippet` | a2w.go:121-129 | the builder loop produces exactly the mention suffix of the ids |
| `A2w.Header` | a2w.go:215 | the rendered header is the 40-byte format less its two `%d` verbs plus both numbers' digits, between the fixed opening and closing text |
| `A2w.HeaderFitsFormat` | a2w.go:173-176 | the rendered header fits the reserved 40 bytes exactly when both numbers together have at most 4 digits |
| `A2w.SnippetMaxLen` | a2w.go:176 | the budget is 4056 bytes less the suffix length, and it is negative exactly when the suffix is longer than 4056 bytes |
| `A2w.FirstOversized` | a2w.go:185-192 | returns none exactly when every fragment plus the empty line fits the budget, else the first fragment that does not |
| `A2w.Pack` | a2w.go:195-205 | the open body of greedy packing is empty exactly when there are no fragments, and otherwise ends with the last fragment; the close rule itself is proved as `WellPacked` in `PackInvariant` |
| `A2w.Groups` | a2w.go:195-209 | closing the last body after the loop gives at least one group, and the last group ends with the last fragment |
| `A2w.Decorate` | a2w.go:212-217 | the header loop yields exactly one message per group |
| `A2w.Segmentation` | a2w.go:166-219 | content that fits with the suffix gives the single message `content + suffix`; for content that does not fit, a negative budget is the `Grow` panic (`NegativeGrow`, carrying the budget), and otherwise the result is an `OversizedFragment` error exactly when some fragment plus the empty line exceeds the budget; that error carries the budget minus 3 |
| `A2w.PackSnippets` | a2w.go:185-209 | the loop fails exactly when some fragment is oversized, with the first such fragment's length; otherwise it returns the greedy bodies, each followed by the suffix |
| `A2w.AddHeaders` | a2w.go:212-217 | message i becomes `(i+1/N)` header + the old message i, where N is the final count |
| `A2w.Segment` | a2w.go:120-219 | building the suffix, checking the budget passed to `Grow` and segmenting yields exactly `Segmentation(content, suffix)` |
| `A2wProperties.PackInvariant` | a2w.go:195-204 | greedy packing keeps every fragment in order; no body is empty or over budget; each body's first fragment would not have fitted into the body before it |
| `A2wProperties.MultiSegment` | a2w.go:173-217 | for long content, the groups of fragments flatten back to the split fragments and are greedily packed, and message i is header `(i+1/N)` + body of group i + suffix |
| `A2wProperties.ContentPreserved` | a2w.go:179-209 | with headers and suffixes cut off, the bodies concatenate to `"\n\n\n" + content`, and each starts with the empty line and fits the budget |
| `A2wProperties.AtLeastTwoMessages` | a2w.go:169-209 | content that does not fit one message always gives at least two messages |
| `A2wProperties.Decoration` | a2w.go:170-217 | every message ends with the mention suffix; when there are several, message i starts with header `(i+1/N)` |
| `A2wProperties.MessageLengthBound` | a2w.go:169-217 | with at most 99 messages, every message is at most 4096 bytes |
| `A2wProperties.HeaderOverflow` | a2w.go:173-215 | 100 fragments of 4053 bytes with no mentions give 100 messages, the last one 4098 bytes long |
| `A2wProperties.GreedyPackExample` | a2w.go:195-204 | fragments of 100, 3900, 50, 3900 and 10 bytes with a 4056-byte budget pack into groups of two and three fragments |
| `A2wProperties.GreedyExample` | a2w.go:166-219 | that content, with no mentions, becomes the two messages `(1/2)` and `(2/2)` holding those groups |

## Left out

- HTTP handling is not modelled, because it is framework plumbing and I/O: flag parsing, template discovery, the health check, reading and decoding the request body, and writing status codes (a2w.go:62-150). The `OversizedFragment` error is the `Err` result that the handler answers with 400. The `NegativeGrow` error stands for the panic of `Grow`, which ends the request without that answer; how the web framework reports a panic is not modelled.
- Template rendering (a2w.go:153-164) is an external library; the rendered `content` is an input.
- Delivery of the messages to the webhook (a2w.go:221-247) is network I/O. Because `Segment` returns every message or an error before any delivery, a failed segmentation delivers nothing.
- The time helpers `timeFormat`, `timeDuration` and `timeFromNow` (a2w.go:253-266) are left out. They depend on the local time zone, the clock and a formatting library that is not part of this model.
- The package-level `tmplName` that every request overwrites is left out, because that is a concurrency matter. `TemplateName` models only the value chosen.
- `strings.Builder.Grow` is modelled only as its panic on a negative count. That can happen only at a2w.go:182, where the count is the budget. Otherwise it only reserves capacity and changes no content.
- The text of the logged error is left out; the error keeps the two numbers it reports.
- `Split` is modelled only for a non-empty separator, the only kind the segmenter uses.
- Go strings are UTF-8 byte strings. The model works on one element per byte and does no decoding.
- `A2wProperties.MessageLengthBound`: proved only for at most 99 messages, because beyond that the code can break the 4096-byte bound (see `HeaderOverflow`).
