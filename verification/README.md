# Mail-merge message pipeline of `googleMail/index.js`, in Dafny

This project models the pure part of the Gmail integration: the path from a
mail-merge template to the `raw` value sent to the mail API. It has three
stages.

- **Merge-field validation** (`validateMergeFields`). The subject and body
  are joined with one space. The field names are taken from that text with
  the regular expression `/[^{}]+(?=})/g`. Repeats are dropped, keeping the
  order of first appearance. Every name must be a key of the field map.
  Otherwise one error lists all the missing names.
- **Merge-field substitution** (`populateMergeFields`). Validation runs
  first. Then the map entries are applied in order. Each entry replaces only
  the first `{{key}}` in the body, and then the first one in the subject.
- **Message encoding** (`generateEmail`). It builds the header lines To, Cc,
  Bcc, From, Content-Type, MIME-Version and Subject. The Subject is a "B"
  encoded-word (section 4.1 of RFC 2047). Then come an empty line and the
  body, all joined with LF. The result is base64-encoded (section 4 of
  RFC 4648), rewritten into the URL-safe alphabet (section 5), and its `=`
  padding is stripped (section 3.2).

Text is modelled as UTF-8 bytes (`Bytes.Text = seq<Byte>`). The field map is
a sequence of `Field(name, value)` entries, in the order `Object.entries`
yields them. Thrown errors become `Results.Outcome`/`Results.Result` values.

The source only encodes. Each encoder therefore has a decoder here that reads
its output the way the receiving side does: `Base64.Decode`,
`Base64.DecodeUrl`, `Email.DecodeEncodedWord` and `Bytes.SplitOn`. These
decoders are what the round-trip lemmas are stated against. `Base64.Decode`
accepts only the text `Base64.Encode` produces (`Base64.EncodeDecode`), and
`Base64.DecodeUrl` accepts only the text `Base64.EncodeUrl` produces
(`Base64.EncodeUrlDecodeUrl`): it refuses any byte outside the URL-safe
alphabet, `+`, `/` and `=` included. The encoder agrees with the test vectors of
section 10 of RFC 4648 (`Base64.PaddedTestVectors`, the `Base64.TestVector…`
lemmas and `Base64.UrlTestVector`).

Modules:

- `results.dfy`: `Results` — `Option`, `Result` and `Outcome`.
- `bytes.dfy`: `Bytes` — bytes, ASCII literals, `indexOf`-style search,
  join and split.
- `base64.dfy`: `Base64` — standard and URL-safe base64, with decoders.
- `merge_fields.dfy`: `MergeFields` — extraction, validation, the error
  text, `replace` with a string pattern, and substitution.
- `email.dfy`: `Email` — the From line, the encoded-word, message assembly
  and `generateEmail`.

Behaviour of the code worth knowing:

- A field name does not need an opening brace. The pattern only demands a
  `}` right after a brace-free run, so `a}` and `{a}` both request `a`. A
  subject ending in `{x` and a body starting with `y}` request `x y`, because
  of the joining space.
- Missing names are listed in order of first appearance, not as an
  unordered set.
- A placeholder written twice keeps its second copy
  (`MergeFields.RepeatedPlaceholderKeepsSecond`). So "no `{{key}}` remains
  after populate" is not a property of the code, and is not claimed here.

## Model

| member | source | states |
|---|---|---|
| MergeFields.ScanFromExact | googleMail/index.js:52 | The regex engine model (greedy `[^{}]+`, backtracking to a `}` lookahead, resuming at `lastIndex`) reports exactly the maximal brace-free runs followed by `}`. It misses none and reports them left to right without overlap. |
| MergeFields.NamesAreFieldRuns | googleMail/index.js:52 | A text is a requested name iff it is a non-empty brace-free run that starts the text or follows a brace, and is followed by `}`. Matches are non-overlapping and in text order. |
| MergeFields.Distinct | googleMail/index.js:53 | `[...new Set(xs)]` has the same elements as `xs`, repeats none, and lists them in order of first appearance. |
| MergeFields.MissingNames | googleMail/index.js:54 | The filter keeps exactly the names that are not keys of the field map. |
| MergeFields.MissingNamesKeepsOrder | googleMail/index.js:54 | The filter keeps the order of first appearance. |
| MergeFields.Validate | googleMail/index.js:51-56 | Fails iff some requested name is not a key. The error lists exactly those names, each once, in order of first appearance. |
| MergeFields.ValidateByFieldSpans | googleMail/index.js:52-55 | Fails iff some maximal brace-free run followed by `}` names no key. The error lists exactly the texts of such runs. |
| MergeFields.ValidateWithoutClosingBrace | googleMail/index.js:52-55 | With no `}` in subject or body, validation passes for every field map, including the empty one. |
| MergeFields.TokenIsRequested | googleMail/index.js:52 | A placeholder `{{key}}` with a non-empty brace-free key requests `key`. |
| MergeFields.ValidatedPlaceholdersHaveFields | googleMail/index.js:52-55 | After validation passes, every well-formed placeholder in subject or body has a field. |
| MergeFields.ErrorMessageListsNames | googleMail/index.js:55 | The error text is the fixed prefix, the names joined by `", "`, and a full stop. Splitting the middle at `", "` gives back the names, provided no name contains a comma. |
| MergeFields.ExpandLiteral | googleMail/index.js:63-64 | A replacement value without `$` is inserted literally. |
| MergeFields.ReplaceFirstWithoutOccurrence | googleMail/index.js:63-64 | `replace` returns a text with no occurrence of the placeholder unchanged. |
| MergeFields.ReplaceFirstAtFirstOccurrence | googleMail/index.js:63-64 | `replace` substitutes the value at the leftmost occurrence only. The text before and after it is unchanged. |
| MergeFields.ReplaceFirstKeepsLater | googleMail/index.js:63-64 | An occurrence after the replaced one is still present, for any value. It is shifted by the length of the expanded value minus the length of the placeholder. |
| MergeFields.RepeatedPlaceholderKeepsSecond | googleMail/index.js:62-64 | For a body `{{k}}{{k}}`, the entry for `k` yields `value{{k}}`. |
| MergeFields.ApplyFieldFirstOccurrence | googleMail/index.js:63-64 | One entry replaces the leftmost `{{key}}` in the body and in the subject with its value, and leaves the text around it unchanged. A text without the placeholder comes back unchanged. |
| MergeFields.SubstituteAllSequential | googleMail/index.js:62-66 | Entries apply in order, each to what the earlier entries left. Substituting `a + b` equals substituting `a` and then `b`. |
| MergeFields.SubstituteAllWithoutPlaceholders | googleMail/index.js:60-67 | If no key's placeholder occurs in body or subject, both come back unchanged. |
| MergeFields.Populate | googleMail/index.js:58-68 | Fails iff a requested name is missing, with validation's error and no merged output. Otherwise it returns the in-order substitution of the original body and subject. |
| Bytes.IndexOfFinds | googleMail/index.js:63-64 | The search used by `replace` reports the leftmost occurrence, and reports none when there is none. |
| Bytes.SplitJoin | googleMail/index.js:85 | When no earlier piece contains the separator's first byte, splitting the joined pieces gives back those pieces, followed by the split of the last piece. |
| Bytes.JoinSplit | googleMail/index.js:85 | Joining the pieces of a split gives back the text. |
| Base64.Encode | googleMail/index.js:73 | Standard base64 output has length `4 * ceil(n / 3)`. It is alphabet characters followed by exactly `(3 - n mod 3) mod 3` `=` signs. |
| Base64.DecodeEncode | googleMail/index.js:73 | Standard base64 decodes back to the original bytes. |
| Base64.EncodeDecode | googleMail/index.js:73 | Any standard base64 text that decodes is exactly the encoding of the bytes it decodes to. The decoder accepts only canonical text, whose unused low bits are zero (section 3.5 of RFC 4648). |
| Base64.EncodeUrl | googleMail/index.js:86-90 | The output holds only URL-safe characters (no `+`, `/` or `=`) and has length `ceil(4n / 3)`. |
| Base64.DecodeUrlEncodeUrl | googleMail/index.js:86-90 | Map `-` to `+` and `_` to `/`, restore the padding, and decode: this gives back the original bytes. |
| Base64.EncodeUrlDecodeUrl | googleMail/index.js:86-90 | Any text that the URL-safe decoder accepts is exactly the URL-safe encoding of its bytes. The decoder refuses bytes outside the URL-safe alphabet, so the round trip in `GenerateEmail` singles out the real encoding. |
| Email.ParseFromLineRoundTrip | googleMail/index.js:71 | Read back, the From line gives the alias it was built from, whose display name holds no `<`. The bare `From:` reads back as no alias. |
| Email.DecodeEncodedWordRoundTrip | googleMail/index.js:73 | A reader recovers the merged subject from the `=?utf-8?B?...?=` word. |
| Email.MessageReadsBack | googleMail/index.js:71-85 | Split at LF, the message gives `To:  to`, `Cc:  cc`, `Bcc: bcc`, the From line, the fixed Content-Type and MIME-Version lines, a Subject line whose encoded-word decodes to the merged subject, an empty line, and then exactly the merged body. |
| Email.GenerateEmail | googleMail/index.js:70-93 | Fails iff a requested field is missing, with validation's error. On success the result holds only URL-safe base64 characters, and URL-safe decoding gives back the assembled message built from the merged body and subject. |

## Left out

- JWT/OAuth setup and `authenticate` (googleMail/index.js:8-26): a foreign library call with credentials from the environment.
- `getDraftBySubject` (googleMail/index.js:28-49), including the "No draft found." and "More than one draft found!" errors: these are remote search and fetch calls.
- `sendEmail` and `sendEmailFromDraft` (googleMail/index.js:96-144) are left out: the remote send, the `res.status === 200` result, the try/catch that turns errors into strings, `console.log`, and the draft header, part and attachment handling. All of these work on the API's opaque payloads and responses.
- The `in` test also sees `Object.prototype` keys such as `toString`. The model's key set is only the map's own entries.
- `Object.entries` lists integer-like keys first, in numeric order. The model takes the entries in the order given.
- Values and recipient lists are taken as text. JavaScript's string conversion (`${value}`, and arrays joined with commas) is not modelled.
- Strings are modelled as their UTF-8 bytes. The source matches the pattern and replaces on UTF-16 code units. The results agree because `{`, `}`, `$` and LF are ASCII, and UTF-8 never uses ASCII byte values inside a multi-byte character. The UTF-8 encoding itself (`Buffer.from`) is not modelled.
- Node's lenient base64 decoder (googleMail/index.js:127) belongs to the draft path and is left out. `Base64.Decode` is a strict decoder, used only to state round trips.
- MergeFields.ReplaceFirstAtFirstOccurrence: stated only for values without `$`. `MergeFields.Expand` models the `$`-patterns of `replace`, and a value such as `$&` is not inserted literally.
- MergeFields.ApplyFieldFirstOccurrence: the replacement equations are stated only for values without `$`, for the same reason. `MergeFields.ReplaceFirstWithoutOccurrence` states the no-placeholder case for every value.
- MergeFields.RepeatedPlaceholderKeepsSecond: stated only for values without `$`. With the value `$&`, the body `{{k}}{{k}}` stays `{{k}}{{k}}`.
- MergeFields.ErrorMessageListsNames: stated only for names without a comma, because a name containing `", "` makes the list ambiguous when split.
- Email.ParseFromLineRoundTrip: stated only for display names without `<`, because such a name makes the From line ambiguous to read back.
- Email.MessageReadsBack: stated only when the recipient lists and the alias contain no LF. The source does not check this, and an LF there adds header lines.
