# smtprelay routing core, in Dafny

A model of the routing and admission logic of `smtprelay.py`, a small SMTP
relay. It accepts mail from any client when no relay credentials are
configured, and otherwise only from authenticated sessions. It forwards
each message to one of several outbound SMTP servers chosen per recipient
by a regular expression on the recipient address.

The model follows the relay's five stages:

1. **Destination table** (`config.dfy`, module `Config`): `read_servers`
   reads rules `OUTBOUND_1_*`, `OUTBOUND_2_*`, … from the environment until
   the first index with no `HOST` variable. It appends `$` to each
   destination pattern and parses the port with `int(…, 10)`. The `SSL` and
   `STARTTLS` flags go through `asbool`. The first bad rule aborts start-up
   with `KeyError`, `re.error` or `ValueError`, modelled as `ConfigError`.
   The same module normalises `AUTH_USER` / `AUTH_PASSWORD`: an unset or
   empty value becomes `None`, anything else its UTF-8 bytes.
2. **Resolver** (`routing.dfy`, `Routing`): `find_server` is a
   first-match-wins scan. The regular expression engine is a parameter
   (`Matcher`), so the model says nothing about regex semantics beyond
   "`re.match` of the pattern with `$` appended".
3. **Recipient admission** (`handler.dfy`, `Handler`): `handle_RCPT`
   refuses an unauthenticated session when relay credentials are
   configured. Otherwise it refuses an unroutable address. Otherwise it
   appends the address to `rcpt_tos`.
4. **Batcher** (`batching.dfy`, `Batching`): the grouping loop of
   `handle_DATA`. It is proved equal to an independent description: one
   group per distinct destination in order of first appearance, each group
   holding the recipients bound for it in their original order. A group's
   key is the position of its rule in the table. The source keys by
   `id(server)`, and each rule is a dictionary built once, so the two
   coincide.
5. **Forwarding** (`forwarding.dfy`, `Forwarding`) and the
   **authenticator** (`auth.dfy`, `Auth`). The send loop sends groups one
   after another and re-raises the first exception (smtprelay.py:181), so
   groups after a failed one are never attempted. A policy that tries every
   group and reports the failure afterwards is a different design. The
   model follows the code. `authenticator` checks the mechanism, then the
   payload shape, then both fields against the configured pair, and so
   fails closed when either configured value is unset or empty.

`results.dfy` holds `Option`/`Result`. `text.dfy` holds the
string-level pieces the relay borrows from Python: ASCII case folding,
decimal rendering and parsing, and UTF-8 encoding. The resolver is a
function of the table, the matcher and the address. Resolving an address
twice against an unchanged table therefore gives the same answer by
construction.

## Model

| member | source | states |
|---|---|---|
| `Text.Lower` | smtprelay.py:61-63 | `arg.lower()` keeps the length, turns each upper-case ASCII letter into its lower-case letter and leaves every other character unchanged |
| `Text.LowerIsToken` | smtprelay.py:61-63 | lowering a string gives a lower-case token exactly when the two agree letter by letter up to case |
| `Text.NatToDecimal` | smtprelay.py:59 | the rule index `{i}` is written as a non-empty run of decimal digits with no leading zero (a single digit exactly below ten, and `0` only for zero) |
| `Text.NatToDecimalRoundTrip` | smtprelay.py:59 | the decimal text of the rule index `{i}` reads back as `i` |
| `Text.NatToDecimalInjective` | smtprelay.py:59 | different rule indices render to different decimal texts |
| `Text.ParseInt` | smtprelay.py:73 | `int(text, 10)` succeeds exactly on at least one ASCII digit with at most one leading sign, and then yields the signed decimal value of the digits; any other text, such as `80x`, is refused |
| `Text.IntToDecimalRoundTrip` | smtprelay.py:73 | every integer's decimal text, sign included, parses back to that integer |
| `Text.EncodeChar` | smtprelay.py:107 | a character encodes to its shortest UTF-8 form: 1 byte below U+0080, 2 below U+0800, 3 below U+10000, else 4; a lead byte that announces that length, then continuation bytes only |
| `Text.EncodeCharRoundTrip` | smtprelay.py:107 | decoding a character's UTF-8 bytes gives back its code point |
| `Text.EncodeUtf8` | smtprelay.py:112 | `.encode('utf-8')` gives at least as many and at most four times as many bytes as characters, and empty bytes only for the empty string |
| `Text.EncodeUtf8Single` | smtprelay.py:107-112 | a one-character string encodes to that character's UTF-8 sequence |
| `Text.EncodeUtf8Append` | smtprelay.py:107-112 | the encoding of a concatenation is the concatenation of the encodings, so a string is encoded character by character in the shortest form |
| `Text.EncodeUtf8RoundTrip` | smtprelay.py:107-112 | reading the encoded bytes back sequence by sequence, each sequence's length taken from its lead byte, gives the string's code points |
| `Text.EncodeUtf8Injective` | smtprelay.py:107-112 | different credentials encode to different bytes, so comparing bytes compares the configured strings |
| `Text.EncodeUtf8Ascii` | smtprelay.py:107 | an ASCII credential encodes to its own code units |
| `Config.HostVarInjective` | smtprelay.py:59 | two different indices never name the same `OUTBOUND_{i}_HOST` variable |
| `Config.AsBool` | smtprelay.py:60-66 | `asbool` fails only with the invalid yes/no error carrying the offending text |
| `Config.AsBoolTokens` | smtprelay.py:60-66 | `asbool` maps yes/true/1 in any letter case to true and no/false/0 to false, and rejects every other token |
| `Config.ParseServer` | smtprelay.py:68-78 | a rule parses exactly when its pattern variable is set and compiles with `$` appended, and its host, port, SSL and STARTTLS variables are set with a valid integer and yes/no tokens; the rule then holds those values and the optional user and password. On failure the error is that of the first entry of the dictionary literal that fails, in source order: a missing variable names that variable, a bad pattern, port or flag carries its text |
| `Config.LoadProgress` | smtprelay.py:59-80 | each loop iteration reads a `HOST` variable not read before, so the loop over the finite environment ends |
| `Config.LoadFromOk` | smtprelay.py:59-80 | on success the loop returns the parsed rules of consecutive indices, each with its `HOST` set, stopping at the first index without one |
| `Config.LoadedFromCons` | smtprelay.py:68-80 | one parsed rule in front of the rules read from the next index is the list read from this index |
| `Config.LoadFromErr` | smtprelay.py:59-80 | on failure the error is that of the first index whose rule does not parse, all earlier indices having parsed |
| `Config.ReadServersIndices` | smtprelay.py:56-80 | a loaded table holds the rule of index `k` at position `k - 1`, for indices 1 to n, and index n + 1 has no `HOST` |
| `Config.ReadServersFails` | smtprelay.py:56-80 | start-up fails exactly when some rule the loop reaches is malformed; rules past the first missing `HOST` are never looked at |
| `Config.NormalizeCredential` | smtprelay.py:105-114 | an unset or empty credential becomes `None`; any other value becomes its non-empty UTF-8 bytes |
| `Config.ReadCredentials` | smtprelay.py:105-114 | each relay credential is `None` exactly when its variable is unset or empty, and otherwise the UTF-8 bytes of its value |
| `Routing.FirstMatchFrom` | smtprelay.py:99-102 | the scan from a position returns the first matching rule at or after it, or `None` when no rule from there matches |
| `Routing.FirstMatch` | smtprelay.py:98-102 | the resolver picks position `i` exactly when rule `i` matches and no earlier rule does, whatever later rules do; it finds nothing exactly when no rule matches |
| `Routing.FindServer` | smtprelay.py:98-102 | `find_server` returns `None` exactly when no rule matches, and otherwise the server of the first matching rule |
| `Routing.AppendRules` | smtprelay.py:98-102 | rules added after an address's first match never change its resolution; an address no earlier rule matches resolves within the added rules |
| `Auth.Authenticator` | smtprelay.py:188-199 | succeeds exactly for mechanism `LOGIN` or `PLAIN` with a login/password payload whose fields both equal the configured values; an unsupported mechanism and a payload of the wrong shape are refused with their own kinds |
| `Auth.FailsClosed` | smtprelay.py:196-198 | when either relay credential is unset or empty, no authentication attempt succeeds |
| `Auth.AcceptsConfiguredPair` | smtprelay.py:196-199 | with both credentials set, a supported mechanism succeeds exactly for the UTF-8 bytes of the configured pair |
| `Handler.RcptReplyText` | smtprelay.py:141-146 | the two refusals are `550` replies and acceptance is a `250` reply |
| `Handler.HandleRcpt` | smtprelay.py:140-146 | not-authenticated exactly when credentials are configured and the session has not authenticated, checked before routing; otherwise not-relaying exactly for an unroutable address; an accepted address is appended once at the end, and a refusal leaves the envelope unchanged |
| `Handler.RoutableOnly` | smtprelay.py:142-145 | keeps exactly the routable offered addresses: every kept address is routable, and each address occurs as often as it was offered when routable and not at all otherwise |
| `Handler.RoutableOffersKept` | smtprelay.py:142-145 | no routable offer is dropped |
| `Handler.OfferAllAppendsRoutable` | smtprelay.py:140-146 | over a transaction the envelope gains exactly the routable offered addresses, in offer order and with repeats, and nothing else changes; a refused session gains none |
| `Handler.AdmittedAreRoutable` | smtprelay.py:142-152 | every recipient `handle_DATA` sees has a destination, so the grouping loop never meets `None` |
| `Batching.FindGroup` | smtprelay.py:153-157 | the dictionary lookup finds the first group with the key, or reports that none has it |
| `Batching.Dedup` | smtprelay.py:150-158 | the distinct keys, with no key repeated and every key kept |
| `Batching.WithRule` | smtprelay.py:150-158 | the recipients bound for one destination, all of them and only them; empty exactly when no recipient is bound there |
| `Batching.BatchIsReference` | smtprelay.py:150-158 | the grouping loop builds one group per distinct destination in order of first appearance, each holding the recipients bound for it in their original order |
| `Batching.BatchKeys` | smtprelay.py:150-158 | the dictionary's keys are the distinct destinations of the recipients, no destination keyed twice, in order of first appearance |
| `Batching.BatchGroupContents` | smtprelay.py:150-158 | each group holds exactly the recipients bound for its destination, in their original relative order, and no group is empty |
| `Batching.RecipientInOwnGroup` | smtprelay.py:150-158 | every recipient is in the group of its own destination |
| `Batching.BatchIsPermutation` | smtprelay.py:150-158 | concatenating the groups gives the recipients as a multiset, duplicates included |
| `Batching.DedupFirstOccurrenceOrder` | smtprelay.py:153-157 | new keys are added at the end, so keys are listed by first occurrence |
| `Batching.GroupsInFirstAppearanceOrder` | smtprelay.py:150-158 | every group's destination occurs among the recipients, and groups appear in the order in which their destinations first occur |
| `Batching.GroupMember` | smtprelay.py:151-158 | each member of a group is a recipient whose `find_server` result is the group's server |
| `Forwarding.DataReplyText` | smtprelay.py:185 | only a completed send loop produces a reply line, and that line is a `250` reply |
| `Forwarding.FirstFailure` | smtprelay.py:175-181 | the first failed send, with every earlier send successful; none exactly when every send succeeds |
| `Forwarding.Forward` | smtprelay.py:175-185 | groups are sent once each in group order; the first failure is re-raised and later groups are never attempted; the message is accepted exactly when every send succeeds |
| `Forwarding.BatchCount` | smtprelay.py:150-158 | there are never more groups than recipients, and every group names a rule of the table |
| `Forwarding.GroupsRouted` | smtprelay.py:150-158 | every group has a rule in the table and a non-empty address list, whose members are recipients resolving to that rule's server |
| `Forwarding.AllRecipientsOfGroups` | smtprelay.py:175-178 | the recipients of the sends made for all groups are the groups' addresses in order |
| `Forwarding.BatchDeliveriesRouted` | smtprelay.py:150-178 | every send carries the envelope's sender and content and only recipients resolving to the send's server |
| `Forwarding.HandleData` | smtprelay.py:148-185 | one send per group of the batching loop, in group order, each to the group's server with its addresses and the envelope's sender and content, stopping after the first failure; accepted exactly when all groups were sent, in which case every admitted recipient was handed to the transport exactly as often as it was admitted; on failure the earlier sends went out, the failing send is the last one and its exception propagates |

## Left out

- `send_mail` / `aiosmtplib.send` (smtprelay.py:117-128) is a network call. Each send's result is an input (`SendOutcome`, one per attempt). `HandleData` asks for at least as many outcomes as recipients, because at most one send per recipient is made.
- The `aiosmtpd` `Controller`, `main`, the event loop and the `await` suspension points (smtprelay.py:202-225) are left out. They are I/O and concurrency. This includes installing the authenticator only when credentials are configured (line 217). It also includes how the front end sets `session.authenticated`, which the model takes as an input.
- Prometheus counters and histograms (smtprelay.py:25-52, 84-91, 171-182, 191-197) are observability only. The refusal kind of `Auth.Authenticator` keeps the `AuthErrors` label each refusal would count.
- `AuthResult`'s `handled=False` flag on refusals is not modelled. Only success or refusal is.
- Logging (smtprelay.py:82, 143, 161-169) is left out.
- Regular expressions: compiling and matching are parameters (`compiles`, `Matcher`). So two quirks of the appended `$` are not modelled. First, it binds tighter than `|`, so a pattern with a top-level alternation such as `.*@a\.com|.*@b\.com` is anchored at the end only in its last branch. Second, it also matches before a trailing newline.
- `Text.ParseInt`: accepts only an optional sign followed by ASCII digits. Python's `int` also allows surrounding whitespace, `_` between digits and non-ASCII decimal digits. No port range check is made, as in the source.
- `Text.Lower`: folds ASCII letters only. Python's `str.lower` is Unicode-wide. The only non-ASCII characters whose lowercase contains ASCII letters are U+0130 (`i` plus a combining dot) and U+212A (`k`). None of those letters occurs in the six yes/no tokens, so `asbool` accepts the same strings.
- `Text.EncodeUtf8`: Dafny characters are Unicode scalar values. An environment value holding a lone surrogate makes Python's `.encode('utf-8')` raise. That case is not modelled.
- The `None` destination inside `handle_DATA` is not modelled. `Batching.Batch` requires every recipient to be routable. `Handler.AdmittedAreRoutable` proves that `handle_RCPT` guarantees this.
