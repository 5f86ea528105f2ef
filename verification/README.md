# flyte-ldap group resolution, modelled in Dafny

The system answers a `GetGroups` command: given a username, it searches an
LDAP directory and reports the groups the user belongs to. This project
models its three core pieces and proves properties about them:

- **Group resolver** (`group.dfy`, module `Group`): it builds the search
  request by substituting the username for every `{username}` in the filter
  template. It runs connect / search / close on an abstract client and
  records the calls as a trace. It extracts group names from the first
  returned entry: each attribute value is split on `,`, and the first
  component whose upper-cased form starts with the upper-cased key and `=`
  gives the name from index 3 on.
- **LDAP client** (`ldap.dfy`, module `Ldap`): a session that holds no
  searcher or one searcher connection. Dial, bind and search outcomes are
  inputs. Every transport effect (dial, bind, search, close) is recorded,
  so connection leaks can be stated and excluded.
- **Command handler** (`command.dfy`, module `Command`): a pure decision
  from the decoded input and the searcher's reply to a FATAL, error or
  success event.

`strings.dfy` (module `Strings`) models the parts of Go's `strings` package
that the code calls: ASCII upper-casing, `HasPrefix`, `Split` and
`Replace(s, old, new, -1)`. `Join` is not called by the code. It is the
reference that the `Split` and replacement lemmas are stated against. The
module proves `Split` and `Join` inverse in both directions, and that the
replacement is split-then-join. `wrappers.dfy`
holds `Option` and `Result`. `search_cases.dfy` proves the concrete cases of
the Go tests about the model.

Three points about the code that the model keeps as they are:

- When connect fails, `Close` is never called. The deferred `Close` is
  registered only after a successful connect (group/search.go:46-49).
  `GetGroupsFor`'s contract says the trace is then exactly `[Connect]`.
- The resolver calls `ConnectTls()` with no argument, while the client
  interface declares `ConnectTls(insecureSkipVerify bool)` and the test mock
  implements `Connect()`. `SearchDetails` has no TLS fields, although
  main.go sets them. The resolver therefore makes one abstract connect call.
  The client models both `Connect` and `ConnectTls` as `Ldap.Connect` with a
  `DialMode`.
- The name is taken from index 3 as written (group/search.go:83). For keys
  that are not two characters long it is mis-sliced: with the key `uid`,
  `uid=jdoe` gives `=jdoe` (`SearchCases.LongerKeyKeepsEquals`).

## Model

| member | source | states |
|---|---|---|
| Strings.Upper | group/search.go:82 | upper-casing keeps the length and upper-cases each character, ASCII letters only |
| Strings.ReplaceAll | group/search.go:54 | models `strings.Replace(s, old, new, -1)` for a non-empty pattern; the replacement lemmas below state its meaning |
| Strings.HasPrefix | group/search.go:82 | models `strings.HasPrefix`: the string is at least as long as the prefix and begins with it |
| Strings.Split | group/search.go:81 | splitting always yields at least one piece, as Go's `strings.Split` does for a non-empty separator |
| Strings.ReplaceAllIsSplitJoin | group/search.go:54 | replacing every non-overlapping occurrence of the placeholder, left to right, equals splitting on it and joining with the username |
| Strings.ReplaceAllSelf | group/search.go:54 | replacing the placeholder by itself leaves any template unchanged |
| Strings.JoinSplit | group/search.go:81 | joining the pieces of a split with the separator gives back the original value |
| Strings.SplitJoin | group/search.go:81 | splitting the comma-join of comma-free pieces gives back exactly those pieces |
| Strings.ReplaceAllAtFirstOccurrence | group/search.go:54 | replacement scans left to right: a head free of the pattern's first character is kept, the next occurrence is replaced, and the rest is replaced on its own |
| Strings.ReplaceAllJoin | group/search.go:54 | every occurrence is replaced: pieces joined by the pattern, none of which can start or hide an occurrence, come out joined by the replacement |
| Strings.ReplaceAllAbsent | group/search.go:54 | a template in which the placeholder does not occur is left unchanged |
| Strings.SplitOnChar | group/search.go:81 | splitting on `,` yields one more component than there are commas, and no component contains a comma, so nothing is escaped |
| Strings.SplitAtFirstSeparator | group/search.go:81 | a head free of the separator's first character is the first piece, and the rest splits independently |
| Strings.SplitWithoutSeparator | group/search.go:81 | a value without a comma is a single component |
| Group.KeyMatches | group/search.go:82 | the component test of the loop; a match always has `=` right after the key, so the component is longer than the key |
| Group.FirstMatch | group/search.go:81-86 | the loop over the components, returning at the first match; its meaning is stated by `Group.FirstMatchIsFirst` |
| Group.ExtractUserGroupFrom | group/search.go:80-87 | `extractUserGroupFrom`: the first match over the comma-split components; its meaning is stated by `Group.ExtractUserGroupFromChoosesFirstMatch` |
| Group.Components | group/search.go:81 | models `strings.Split(attributeValue, ",")`: a value always has at least one component |
| Group.KeyMatchesIgnoresCase | group/search.go:82 | a component matches the key exactly when it is longer than the key, agrees with it letter by letter ignoring ASCII case, and has `=` right after it |
| Group.FirstMatchIsFirst | group/search.go:81-86 | the scan returns the first matching component from index 3 on, ignores later matches, and returns "" when nothing matches |
| Group.ExtractUserGroupFromChoosesFirstMatch | group/search.go:80-87 | `extractUserGroupFrom` of a value is the first matching comma-separated component from index 3 on, or "" when none matches |
| Group.ComponentsOfJoin | group/search.go:81 | a DN built by joining comma-free components splits back into exactly those components |
| Group.ExtractFromJoin | group/search.go:80-87 | a DN joined from comma-free components yields the first matching component from index 3 on |
| Group.ExtractFromMatchingHead | group/search.go:81-84 | when the first component matches, the name is that component from index 3 on, whatever follows |
| Group.ExtractSkipsHead | group/search.go:81-85 | a first component that does not match is skipped and the rest of the value decides |
| Group.ExtractFromSingleComponent | group/search.go:80-87 | a comma-free value gives its own slice when it matches and "" otherwise |
| Group.GroupsIn | group/search.go:70-74 | the names kept from a list of values never include "" and are no more numerous than the values |
| Group.GroupsInAppend | group/search.go:69-75 | the names of concatenated values are the names of each part in order: output order is value order |
| Group.GroupsInMembership | group/search.go:70-73 | a name is in the output exactly when it is non-empty and some value yields it |
| Group.AllValuesAppend | group/search.go:69-70 | the values scanned for consecutive attribute lists are the values of each list in order |
| Group.ExtractFromValues | group/search.go:70-74 | the inner loop keeps, in order, exactly the non-empty names of one attribute's values |
| Group.AllValuesMembership | group/search.go:69-70 | a value is scanned exactly when it is some value of some attribute of the entry |
| Group.GroupsOfReplyMembership | group/search.go:66-78 | a name is reported exactly when it is non-empty, the reply has an entry, and some value of some attribute of the first entry yields it; later entries are never read |
| Group.ExtractUserGroupsFrom | group/search.go:66-78 | the nested loops return the reply's groups: every non-empty name of the first entry's values in attribute then value order, and none for a reply without entries, whatever the key; never "" |
| Group.RequestFor | group/search.go:51-56 | the request copies attributes, base DN and timeout, and its filter is the template split at every `{username}` and joined with the username |
| Group.RequestReplacesPlaceholder | group/search.go:54 | a template with one placeholder and no `{` before it has the username put in its place |
| Group.RequestReplacesEachPlaceholder | group/search.go:54 | every placeholder is replaced, not only the first: a template with two gets the username in both places |
| Group.RequestReplacesEveryPlaceholder | group/search.go:54 | any number of placeholders: a template made of `{`-free pieces joined by `{username}` is sent as the same pieces joined by the username |
| Group.FilterWithoutPlaceholderIsUnchanged | group/search.go:54 | a filter template without the placeholder is sent as is |
| Group.GetGroupsFor | group/search.go:45-64 | for any group attribute, as long as one of at least two characters is there when a non-empty reply is scanned: a failed connect gives the trace `[Connect]` and returns its error unchanged; otherwise the trace is Connect, one Search with the substituted request, then Close; the session discipline holds either way; a search error is returned unchanged with no groups, and success returns the first entry's groups |
| Ldap.NewClient | ldap/client.go:51-57 | a new client keeps its credentials and address and holds no searcher |
| Ldap.Connect | ldap/client.go:59-91 | the client's own server address is dialled; a dial failure gives `Cannot connect to LDAP: ` and changes nothing; a bind failure gives `Cannot bind to LDAP: `, closes the dialled connection and keeps the old searcher; success stores the dialled connection bound with the client's credentials |
| Ldap.ProtocolRequestFor | ldap/client.go:94-104 | the wire request copies base DN, filter, attributes and time limit, and fixes whole-subtree scope, no alias dereferencing, size limit 0, types-only off and no controls |
| Ldap.Search | ldap/client.go:93-111 | one search on the stored searcher with the built request; a searcher error becomes `LDAP group error: ` plus its text, and a reply is returned unchanged |
| Ldap.Close | ldap/client.go:113-115 | closing closes the stored searcher exactly once |
| Ldap.OpenAfterAppend | ldap/client.go:59-115 | replaying transport events in two parts gives the same open connections as replaying them at once |
| Ldap.CloseReleasesSearcher | ldap/client.go:93-115 | a search leaves the open connections as they are, and closing releases exactly the stored searcher |
| Ldap.ConnectLeavesOnlySearcherOpen | ldap/client.go:59-91 | a connect attempt leaves no new connection open except the one it stores: a failed bind closes what it dialled |
| Ldap.ErrorPrefixesDistinguishSteps | ldap/client.go:62-108 | no error text can carry two of the connect, bind and search prefixes, so the prefix names the failing step |
| Ldap.SessionClosesWhatItOpens | group/search.go:46-58 | connect, then search and close only when connected, leaves every connection dialled in the session closed, whatever the outcomes |
| Command.NewGetGroupsErrorEvent | command/groups.go:83-91 | the error event carries the text and the username and never any groups |
| Command.GetGroupsHandler | command/groups.go:52-81 | undecodable input is FATAL with the `Json unmarshalling error: ` text; an empty username gives `No Username provided.`; the searcher is called once, only for a non-empty username, with the details unmodified; its error gives the error event with the username, its groups the success event with exactly those groups; only success events carry groups |
| Command.GetGroupsCommand | command/groups.go:41-50 | the command is named `GetGroups`, declares the success and error events, runs the handler, and every event it emits is declared or FATAL |
| Command.ErrorEventExactlyWhenRejected | command/groups.go:61-70 | the error event is emitted exactly when a decoded input has no username or the search for it failed; an empty username is rejected without a search, with `No Username provided.` |
| SearchCases.KeyCaseVariantsMatch | group/search_test.go:194-198 | `CN=`, `cn=`, `cN=` and `Cn=` all match the key `cn`, and `cnx=` does not |
| SearchCases.MatchesCn | group/search.go:82 | a component that spells `cn` in any case followed by `=` matches the key `cn` |
| SearchCases.DiffersFromCn | group/search.go:82 | a component whose first letter is not `c` or `C` does not match the key `cn` |
| SearchCases.LondonValue | group/search_test.go:195 | the first test value yields `London team` |
| SearchCases.NewYorkValue | group/search_test.go:196 | a matching component after a non-matching one yields `New York team` |
| SearchCases.ParisValue | group/search_test.go:197 | a matching last component yields `Paris team` |
| SearchCases.BrusselsValue | group/search_test.go:198 | the fourth test value yields `Brussels team` |
| SearchCases.OtherValue | group/search_test.go:199-200 | the `uid` and `description` values yield no group |
| SearchCases.GroupsOfSixValues | group/search.go:70-74 | six values of which the first four name groups give exactly those four names, in value order |
| SearchCases.RecordGroups | group/search.go:66-78 | a record whose values yield the four names, and nothing for the rest, gives exactly those names in attribute and value order |
| SearchCases.TestRecordGroups | group/search_test.go:188-219 | the test record gives exactly London, New York, Paris and Brussels, in that order |
| SearchCases.EmptyReplyHasNoGroups | group/search_test.go:221-229 | a reply without entries gives no groups |
| SearchCases.TestFilter | group/search_test.go:160-186 | the request built for `dave-jones` has the filter `(mailNickname=dave-jones)` |
| SearchCases.ConnectErrorIsReturned | group/search_test.go:57-74 | with empty search details, a connect error `Meh` is returned as it is and the trace is only the connect |
| SearchCases.ConnectAndCloseAreCalled | group/search_test.go:27-55 | with empty search details, a successful connect and an empty reply, the session is connected first and closed last and no group is returned |
| SearchCases.LongerKeyKeepsEquals | group/search.go:83 | with the three-letter key `uid`, the fixed slice keeps the `=`: `uid=jdoe` gives `=jdoe` |

## Left out

- main.go: reading the environment, parsing numbers, flags and URLs, process exit on bad configuration, starting the pack and blocking forever. This is start-up plumbing over foreign calls.
- The network work of the LDAP library (TCP/TLS dial, the bind exchange, message encoding). Dial, bind and search outcomes are inputs; a dialled connection is an abstract `Conn` number. The dial event records the address, the server URL, without interpreting it.
- TLS settings: main.go:67-68 sets `EnableTLS` and `InsecureSkipVerify`, but `SearchDetails` (group/search.go:25-31) has no such fields. `GetGroupsFor` calls `ConnectTls()` without arguments (group/search.go:46), while ldap/client.go:27 declares `ConnectTls(insecureSkipVerify bool)`. So the resolver's connect is one abstract step, and the verification flag appears only in `Ldap.DialMode`.
- JSON decoding of the command input: `Command.Input` is the already-decoded result, with a missing username read as "". The JSON encoding of the payload (omitting empty fields) is not modelled.
- Unicode case mapping: `strings.ToUpper` is modelled as ASCII upper-casing.
- Logging calls and the concurrent test LDAP server.
- Group.ExtractUserGroupFromChoosesFirstMatch: requires a key of at least two characters, which is more than Go needs. Go's `v[3:]` panics only when the first matching component is shorter than three bytes. With a one-character key such as `c`, the component `c=London` gives `ondon` without a panic, and the model does not cover that case. `Group.GetGroupsFor` and `Group.ExtractUserGroupsFrom` need the key only when a reply with an entry is scanned.
- Go slices bytes, while the model slices characters. For a component with non-ASCII characters before index 3, Go's 3-byte slice and the model's 3-character slice differ.
- Ldap.Search and Ldap.Close: require a stored searcher. Go dereferences a nil searcher there and panics.
- Strings.ReplaceAllIsSplitJoin: covers only a non-empty pattern. The code only ever replaces `{username}`, so Go's special case for an empty pattern is not modelled.
- A client stores a new connection on a second successful connect without closing the previous one (ldap/client.go:71-73). The model keeps that behaviour, and `Ldap.ConnectLeavesOnlySearcherOpen` states what stays open.
