# Galaxy portfolio: visit context and share link

This project is a Dafny model of the two pieces of deterministic logic in the galaxy-portfolio
web page. The rest of the page is 3D rendering.

- **Visit context resolver** (`getExperienceContext`, `lib/experience.ts`). It classifies
  whether the visitor came from WhatsApp and resolves the name to greet. It also records the
  visit in `localStorage` under the keys `galaxy_user` and `galaxy_visited`, and it returns a
  fixed intro text.
- **Share-link builder** (`shareOnWhatsApp`, `app/page.tsx`). It builds a link back to the page
  carrying `from=whatsapp` and the saved name (or `Explorer`). It wraps that link in a message,
  and wraps the message in a `https://wa.me/?text=` deep link.

The browser's ambient state becomes parameters:

- The `from` and `name` query values are `Option<string>`, with `None` for `null`.
- The referrer and the user-agent are strings.
- The page origin is a string.
- `localStorage` is a `map<string, string>`. The resolver returns the store as the call leaves
  it. The share builder takes the store and returns no store, so it reads the store and never
  writes it.

Modules:

- `Wrappers` (`wrappers.dfy`): `Option`.
- `Strings` (`strings.dfy`): `String.prototype.includes`, `toLowerCase` on ASCII letters, and
  split/join on a delimiter.
- `UriComponent` (`uri_component.dfy`): `encodeURIComponent` and `decodeURIComponent`, as in
  section 19.2.6 of ECMA-262. Non-kept characters are percent-encoded (section 2.1 of RFC 3986)
  as the UTF-8 bytes of their code point (RFC 3629).
- `Query` (`query.dfy`): `location.search` of an `http` or `https` URL, including the URL
  parser's percent-encoding of the query, `new URLSearchParams(...)` on well-formed input,
  `params.get`, and the query encoder whose output it reads back.
- `Experience` (`experience.dfy`): the resolver.
- `Share` (`share.dfy`): the share builder, and the round trip from a share link back into the
  resolver.

Three behaviours of the code are easy to misread:

- `isReturning` is the raw stored `galaxy_visited` value (`Option<string>`), not a boolean. A
  second visit therefore sees `Some("true")`.
- The name is stored only when the `name` value is non-empty (JavaScript truthiness). Merely
  being present is not enough. Likewise, an empty saved name counts as no name.
- The intro text is the constant `✨ Minakshi, Space Explorer` for every input. The greeting
  templates in the source are commented out, so they are not behaviour and are not modelled.

## Model

| member | source | states |
|---|---|---|
| Experience.Resolve | lib/experience.ts:2-43 | isWhatsApp holds iff `from` is exactly `whatsapp`, or `whatsapp` occurs in the referrer with case respected, or occurs in the user-agent ignoring case; isReturning is the `galaxy_visited` value from before this call's write; userName is a non-empty `name`, else a non-empty saved name, else null; introText is the constant for every input; afterwards `galaxy_visited` is `"true"`, `galaxy_user` is `name` when that is non-empty and otherwise unchanged, and every other key is unchanged |
| Experience.ResolveKeys | lib/experience.ts:18-22 | the keys after the call are the old keys plus `galaxy_visited`, plus `galaxy_user` only when `name` is non-empty |
| Experience.SecondVisitIsReturning | lib/experience.ts:14-22 | whatever the inputs of two consecutive calls, the second returns isReturning = `"true"` |
| Experience.EmptyNameKeepsSavedName | lib/experience.ts:16-20 | `name=""` neither overrides nor overwrites a saved non-empty name |
| Experience.ResolveIdempotent | lib/experience.ts:16-22 | repeating a call with the same inputs leaves the store as the first call left it and gives the same userName and channel |
| Experience.ExplicitNameReplacesSavedName | lib/experience.ts:16-20 | with `Asha` saved, `name=Rohit` greets Rohit and a later call without `name` still greets Rohit |
| Experience.ReferrerMatchIsCaseSensitive | lib/experience.ts:10 | a referrer spelling `WhatsApp` with capitals is not classified as WhatsApp on its own |
| Experience.UserAgentMatchIgnoresCase | lib/experience.ts:11 | a user-agent containing `WhatsApp` with capitals is classified as WhatsApp |
| Experience.IsWhatsAppMeaning | lib/experience.ts:8-11 | the computed test (`===`, `includes`, `toLowerCase().includes`) agrees with the occurrence-position definition of the three signals |
| Experience.GetItemAfterSet | lib/experience.ts:13-22 | after `setItem(k, v)`, `getItem(k)` is `v` and every other key reads as before |
| Experience.JsOrLaws | lib/experience.ts:16 | `\|\|` on `string \| null` is associative, so `name \|\| saved \|\| null` may be grouped either way, and its result is truthy iff one operand is |
| Strings.Includes | lib/experience.ts:10 | `s.includes(m)` is true iff `m` occurs at some index of `s` |
| Strings.ToLower | lib/experience.ts:11 | lower-casing keeps the length and maps each character on its own, `A`-`Z` to `a`-`z` |
| Strings.ToLowerOccursAt | lib/experience.ts:11 | `m` occurs at `i` in the lower-cased string iff it matches the window at `i` letter by letter after lower-casing each letter |
| Strings.IncludesIgnoringCase | lib/experience.ts:11 | `s.toLowerCase().includes(m)` is true iff `m` matches some window of `s` letter by letter after lower-casing each letter |
| Query.ReencodeQuery | lib/experience.ts:3 | the query the URL parser stores is at least as long as the written one and holds no C0 control, space, `"`, `#`, `<`, `>`, `'` or non-ASCII character |
| Query.QuoteIsReencoded | lib/experience.ts:3 | a `'` in the written query is stored as `%27`, with the text on either side re-encoded on its own |
| Query.ReencodeEncode | lib/experience.ts:3 | the stored form of `encodeURIComponent(s)` is the encoding of `s` that also percent-encodes `'` |
| Query.ReencodeBuildQuery | lib/experience.ts:3 | the stored form of a built query is the same query built with `'` percent-encoded |
| Query.Search | lib/experience.ts:3 | `location.search` holds no `#` and is empty or `?` followed by at least one character |
| Query.SearchAfterOrigin | lib/experience.ts:3 | for `origin ++ "?" ++ q` with no `?`/`#` in the origin and no `#` in a non-empty `q`, the search is `?` followed by the re-encoded `q` |
| Query.SearchParams | lib/experience.ts:3 | an empty search, or a lone `?`, gives no pairs |
| Query.Get | lib/experience.ts:5-6 | `params.get(k)` is null iff no pair is named `k`, and otherwise is the value of the first pair named `k` |
| Query.GetTwo | lib/experience.ts:5-6 | in a two-pair list with distinct names, each name finds its own value |
| Query.ParseBuildQuery | lib/experience.ts:3 | splitting on `&`, cutting at the first `=` and decoding a query built from pairs gives back exactly those pairs, with or without `'` percent-encoded |
| Query.SearchParamsBuildQuery | lib/experience.ts:3 | `new URLSearchParams("?" + query)` of a built query holds exactly the pairs it was built from, with or without `'` percent-encoded |
| Query.SearchOfBuiltUrl | lib/experience.ts:3 | `new URLSearchParams(location.search)` for `origin ?` and a built query holds exactly the pairs it was built from, the URL parser's `%27` decoding back to `'` |
| Query.BuildQueryShape | app/page.tsx:27-29 | a built query has no `#`, and it is non-empty when it carries any pair |
| UriComponent.Encode | app/page.tsx:27-29 | `encodeURIComponent` output consists only of kept characters, `%` and upper-case hexadecimal digits |
| UriComponent.EncodeHasNoDelimiters | app/page.tsx:27-29 | an encoded value, with or without `'` kept, has no `&`, `=`, `?`, `#`, `+` or space, so it cannot add or split query parameters |
| UriComponent.EncodeUnreserved | app/page.tsx:27-29 | a string of kept characters encodes to itself |
| UriComponent.DecodeEncodeWith | app/page.tsx:27-29 | percent-decoding gives back the original string whether or not `'` was kept |
| UriComponent.DecodeEncode | app/page.tsx:27-29 | `decodeURIComponent(encodeURIComponent(s)) == s` for every string of Unicode scalar values |
| UriComponent.EncodeInjective | app/page.tsx:27-29 | different names give different encoded values |
| UriComponent.Utf8RoundTrip | app/page.tsx:27-29 | the UTF-8 bytes of a character start with a lead byte announcing their count and decode back to the character |
| Share.SharedName | app/page.tsx:26 | the shared name is the saved `galaxy_user` when non-empty, else `Explorer`; it is never empty |
| Share.ShareOnWhatsApp | app/page.tsx:25-33 | the url is the origin, `?`, then the query built from exactly `from=whatsapp` and `name=<shared name>`; the message is the fixed head, a newline and the url; the deep link is `https://wa.me/` and the query built from the single pair `text=<message>` |
| Share.ShareQueryIsBuilt | app/page.tsx:27-29 | the literal template `?from=whatsapp&name=` followed by the encoded name equals `?` plus the query built from the two pairs |
| Share.MessageQueryIsBuilt | app/page.tsx:32 | `https://wa.me/?text=` followed by the encoded message equals the wa.me host, `?`, and the query built from the one `text` pair |
| Share.SharedNameCannotInject | app/page.tsx:27-29 | what follows the template in the url is exactly the encoded name and holds no `&`, `=`, `?`, `#` or space |
| Share.ShareUrlRoundTrip | app/page.tsx:27-29 | reading the share url back through `location.search` and `URLSearchParams` gives exactly `from = whatsapp` and `name = <shared name>`, also for a name holding `'` |
| Share.FollowShareLink | app/page.tsx:26-29 | a visit through a share link, resolved by `getExperienceContext` on any referrer, user-agent and store, is classified as WhatsApp, greets the shared name and stores it |
| Share.DeepLinkCarriesMessage | app/page.tsx:31-32 | reading the wa.me link back gives the message as its only parameter, `text` |

## Left out

- Rendering, scene components, the page shell, and the timers and JSX of the page: these are
  graphics, timing and UI with no logic of their own.
- `window.open`: the model returns the deep link that would be opened.
- Real `window`, `document`, `navigator` and `localStorage`: these are parameters and a map.
  Cross-tab sharing of storage and storage failures are not modelled.
- Strings with lone UTF-16 surrogates: Dafny strings here are sequences of Unicode scalar
  values, so the `URIError` that `encodeURIComponent` throws for a lone surrogate cannot arise.
- Strings.ToLower: lower-cases only `A`-`Z`, whereas `toLowerCase` applies full Unicode case
  mapping. The resolver uses it only to look for the ASCII marker `whatsapp`. No non-ASCII
  character lower-cases to any of its letters, so the classification is unaffected.
- Query.SearchParams: returns `None` for a malformed percent-escape or malformed UTF-8. The real
  `URLSearchParams` instead keeps such an escape literally and substitutes U+FFFD. Encoded
  output, and its re-encoding by the URL parser, never contains such input.
- Query.Search: covers `http` and `https` URLs only, as the page's origin is one of them. The
  parser's removal of tabs and newlines and its trimming of leading and trailing spaces and
  controls are not modelled; the share links contain none of them.
- The commented-out greeting templates: they are inert, so they are not behaviour.
