# Scheme-redirect middleware, modelled in Dafny

This project models `RedirectSchemeService`, the actix-web middleware that makes
every request use one canonical URL scheme. For each request, `call` does one of two things:

- **Pass-through.** If the middleware is disabled, or the request already uses the
  target scheme, it calls the wrapped service and returns that service's result
  untouched. The target scheme is `https`, or `http` when `https_to_http` is set.
- **Redirect.** Otherwise it:
  - builds `"<target>://" + host + uri`;
  - applies each configured `(pattern, replacement)` pair in order with Rust's
    `str::replace`;
  - picks 307 Temporary Redirect when `temporary` is set and 301 Moved
    Permanently otherwise (sections 15.4.8 and 15.4.2 of RFC 9110);
  - awaits the wrapped service and rebuilds its response into a redirect that
    carries that status and a `Location` field (section 10.2.2 of RFC 9110).

Files:

- `str_replace.dfy` (module `StrReplace`) has `ReplaceAll`, which models Rust's
  `str::replace`. Matches are found left to right and do not overlap, and text
  that was just inserted is never searched again. An empty pattern inserts the
  replacement at every character boundary, both ends included. `MatchCount`
  counts the occurrences that this scan replaces.
- `http.dfy` (module `Http`) has the framework types the middleware touches:
  - status codes and the `Location` header name;
  - the downstream `ServiceResponse<B>`, which holds a request handle, a status,
    a header map and a body of the generic type `B`;
  - the `Outcome` of awaiting the downstream service, a response or an error;
  - `ValidHeaderValue`, the rule a string must meet to become a header value.
- `service.dfy` (module `Service`) has the middleware itself:
  - `Policy` (the `disable`, `https_to_http`, `temporary` and `replacements`
    fields) and `Request` (scheme, host, uri);
  - the pure decision `Decide` and the pure result `Handle`;
  - the rewrite loop `RewriteUrl`, a method proved against the fold `Rewrite`;
  - the classes `Downstream` (the wrapped service, with a ghost call counter)
    and `RedirectSchemeService`, whose `Call` method runs the steps of the
    source in order and is proved equal to `Handle`.

Behaviour worth knowing, which the model follows as the code has it:

- On a redirect, the downstream body is carried over into the redirect response, not
  emptied (src/service.rs:64). The downstream status and headers are dropped: the
  response is built fresh, so its only header is `Location`. The request half of the
  downstream response is reused (src/service.rs:62, 70).
- The scheme test is exact string equality on any string. A scheme other than the
  target is redirected, including one that is neither `http` nor `https`. The code
  places no precondition on the scheme.
- The downstream service is called on both paths, before the redirect is assembled.
  A downstream error is returned unchanged on both paths.
- If the final URL is not a valid header value, `HeaderValue::from_str(..).unwrap()`
  panics (src/service.rs:67). The model represents that as the reply `Panicked`.

## Model

| member | source | states |
|---|---|---|
| `Service.Decide` | src/service.rs:35-57 | Disabled means pass-through. Pass-through happens exactly when disabled or the scheme equals the target (`http` if `https_to_http`, else `https`), so any other scheme is redirected. The status is 307 if `temporary` and 301 otherwise, regardless of direction or request. The location is the rule fold applied to `"<target>://" + host + uri`, and it is exactly that string when there are no rules. |
| `Service.Handle` | src/service.rs:59-70 | On pass-through, the downstream result is returned as it is. A downstream error propagates unchanged on either path. The reply panics exactly when redirecting, the downstream succeeded and the location is not a valid header value. Otherwise the redirect response has the chosen status, the header map `{location: url}` and nothing else, the downstream body and the downstream request. |
| `Service.NotRedirecting` | src/service.rs:35-37 | The guard of `call`, written as the source writes it: disabled, or not `https_to_http` with scheme `"https"`, or `https_to_http` with scheme `"http"`. Its contract states that this is the same as "disabled, or the scheme equals the target scheme". |
| `Service.RawUrl` | src/service.rs:44-48 | The `format!` of the two branches gives `target + "://" + host + uri`, where the target is `http` when `https_to_http` is set and `https` otherwise. |
| `Service.RedirectStatus` | src/service.rs:53-57 | The status is always 301 or 307. It is 307 exactly when `temporary` is set. |
| `Service.Rewrite` | src/service.rs:49-51 | The definition is the left fold of `ReplaceAll` over the rules: the first rule applies to the URL, and each later rule applies to the previous rule's output. It has no contract of its own. `RewriteUrl` is proved equal to it. Its properties are stated by `RewriteAppend`, `RewriteIdentityRules`, `RewriteAbsentRules`, `RewriteChain` and `RewriteKeepsValid`. |
| `Service.RewriteUrl` | src/service.rs:49-51 | The loop that reassigns `url` once per rule returns the left fold of `ReplaceAll` over the rules, taken in list order. |
| `Service.RedirectSchemeService.Call` | src/service.rs:34-73 | The imperative `call` calls the downstream service exactly once on either path. Its reply equals `Handle` applied to what the downstream returned. |
| `Service.RedirectSchemeService.constructor` | src/service.rs:15-21 | The service holds the wrapped service and the fixed configuration. |
| `Service.Downstream.constructor` | src/service.rs:16 | The wrapped service starts with no calls recorded. |
| `Service.Downstream.Call` | src/service.rs:59 | Each call to the wrapped service records exactly one more call and yields that service's answer for the request. |
| `Service.RewriteAppend` | src/service.rs:49-51 | Applying the rules `xs + ys` is applying `xs` and then applying `ys` to the result, so each rule sees the previous rule's output. |
| `Service.RewriteChain` | src/service.rs:49-51 | The rules `[(a, b), (b, c)]` chain: every original `a` (and every original `b`) ends up as `c`, other characters stay, and the length is kept. |
| `Service.RewriteIdentityRules` | src/service.rs:49-51 | Rules whose pattern equals their replacement leave the URL unchanged. |
| `Service.RewriteAbsentRules` | src/service.rs:49-51 | Rules whose non-empty patterns do not occur in the URL leave it unchanged. |
| `Service.ReplaceKeepsValid` | src/service.rs:50 | Replacing with a valid header value keeps a valid header value valid, for every pattern including the empty one. |
| `Service.ReplaceEmptyKeepsValid` | src/service.rs:50 | Inserting a valid header value at every boundary keeps a valid header value valid. |
| `Service.RewriteKeepsValid` | src/service.rs:49-51 | If every rule's replacement is a valid header value, the whole fold keeps a valid URL valid. |
| `Service.RedirectNeverPanics` | src/service.rs:44-67 | If host, uri and every replacement are valid header values, the `unwrap` on the `Location` value never fails. |
| `Service.ScenarioRedirectToHttps` | src/service.rs:35-57 | http request, target https, temporary, no rules: the result is a redirect to `https://example.com/a?b=1` with 307. |
| `Service.ScenarioAlreadyHttps` | src/service.rs:35-37 | An https request under target https passes through. |
| `Service.ScenarioRewriteHost` | src/service.rs:44-57 | https request, target http, permanent, rule `example.com -> other.com`: the result is a redirect to `http://other.com/` with 301. |
| `Service.HostRewrite` | src/service.rs:50 | `"http://example.com/".replace("example.com", "other.com")` is `"http://other.com/"`. |
| `StrReplace.ReplaceAll` | src/service.rs:50 | The definition is `url.replace(s1, s2)`. With a non-empty pattern, it scans left to right, replaces each match, and resumes after the match, so matches do not overlap and inserted text is never searched again. With an empty pattern, it defers to `ReplaceEmpty`. It has no contract of its own. Its properties are stated by `ReplaceUnchanged`, `ReplaceSelf`, `ReplaceAbsent`, `ReplacePresent`, `ReplaceLength`, `MatchCountPositive`, `ReplaceChar` and `ReplaceAfterPrefix`. |
| `StrReplace.ReplaceEmpty` | src/service.rs:50 | The definition is Rust's empty-needle case: the replacement goes before every character and once at the end. It has no contract of its own. Its properties are stated by `ReplaceEmptyLength`, `ReplaceEmptyNothing` and `EmptyPatternExample`. |
| `StrReplace.ReplaceSelf` | src/service.rs:50 | `s.replace(p, p) == s` for every `p`, the empty pattern included. |
| `StrReplace.ReplaceEmptyNothing` | src/service.rs:50 | Replacing the empty pattern by the empty string changes nothing. |
| `StrReplace.ReplaceAbsent` | src/service.rs:50 | A non-empty pattern that does not occur in `s` leaves `s` unchanged. |
| `StrReplace.ReplacePresent` | src/service.rs:50 | A non-empty pattern that occurs and differs from its replacement always changes the string. |
| `StrReplace.ReplaceChangesLength` | src/service.rs:50 | A pattern that occurs and whose length differs from its replacement's changes the string's length. |
| `StrReplace.ReplaceUnchanged` | src/service.rs:50 | `s.replace(p, r) == s` holds exactly when `p == r`, or `p` is non-empty and does not occur in `s`. |
| `StrReplace.ReplaceLength` | src/service.rs:50 | The result's length is `\|s\| + n * (\|r\| - \|p\|)`, where `n` is the number of occurrences that the left-to-right, non-overlapping scan replaces. |
| `StrReplace.MatchCountPositive` | src/service.rs:50 | The scan replaces at least one occurrence exactly when the pattern occurs. |
| `StrReplace.ReplaceEmptyLength` | src/service.rs:50 | With an empty pattern, the replacement is inserted at each of the `\|s\| + 1` character boundaries. |
| `StrReplace.ReplaceChar` | src/service.rs:50 | With a one-character pattern and replacement, the result is the input with every `a` turned into `b`, position by position. |
| `StrReplace.ReplaceAfterPrefix` | src/service.rs:50 | A prefix that contains no copy of the pattern's first character is copied as it is, and the replacement works on the rest. |
| `StrReplace.EmptyPatternExample` | src/service.rs:50 | `"ab".replace("", "x")` is `"xaxbx"`. |
| `StrReplace.NoRescanExample` | src/service.rs:50 | `"aaa".replace("aa", "b")` is `"ba"` (matches do not overlap). `"ab".replace("a", "aa")` is `"aab"` (inserted text is not searched again). |
| `Http.ValidHeaderValue` | src/service.rs:67 | The definition is the test `HeaderValue::from_str` applies before the `unwrap`: every character is a valid header character. It has no contract of its own. `ValidHeaderValueConcat` states how it behaves under concatenation. |
| `Http.ValidHeaderChar` | src/service.rs:67 | The definition is the per-byte rule, read as a rule on characters: code 32 or above except 127, or horizontal tab. Control characters and DEL are refused. It has no contract of its own. |
| `Http.ValidHeaderValueConcat` | src/service.rs:67 | A concatenation is a valid header value exactly when both parts are. |

## Left out

- Async machinery is not modelled: `Box::pin`, `LocalBoxFuture`, `forward_ready!` and
  the `Service` trait plumbing (src/service.rs:23-32, 60). Instead, the downstream
  service is a function from request to outcome, and awaiting it is one call.
- Scheme and host resolution through `connection_info()` and the extraction of
  `req.uri()` are not modelled (src/service.rs:36-37, 42-43). That code is in actix:
  the model takes scheme, host and uri as plain strings.
- Logging is not modelled (`debug!`, `info!` at src/service.rs:39, 68), since it
  has no effect on the result.
- `ValidHeaderValue` follows the byte rule of the `http` crate's
  `HeaderValue::from_str`: bytes 32 to 255 except 127, plus horizontal tab. That
  crate is not part of this model. The rule is applied to characters, which is
  the same thing because every UTF-8 byte of a non-ASCII character is 0x80 or above.
- Strings are sequences of Unicode scalar values, not UTF-8 bytes. A match of a
  valid UTF-8 pattern always lies on character boundaries, so `str::replace`
  behaves the same on both views.
- Only the parts of `HttpResponse` and `ServiceResponse` that the middleware
  touches are modelled. The request half is an opaque handle, and the header map
  is a `map` from lower-case names to single values (no multi-valued headers, no
  case folding).
- `Service.Handle`: a panic is modelled as the value `Panicked`. Unwinding, and
  what the server then does with the connection, are not modelled.
- `Service.Downstream.Call`: the call counter is ghost bookkeeping, not state of
  the source. The wrapped service is modelled as a fixed function, so any side
  effects it has are not modelled.
