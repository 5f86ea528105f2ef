/**
 * The group resolver of group/search.go: it builds the search request from
 * the configured details and a username, runs connect / search / close on an
 * abstract client, and extracts group names from the first returned entry.
 */
module Group {
  import opened Wrappers
  import opened Strings
  import Ldap

  /** The configured search (the TLS flags are opaque to the resolver and not modelled). */
  datatype SearchDetails = SearchDetails(
    attributes: seq<string>,
    baseDn: string,
    searchFilter: string,
    groupAttribute: string,
    searchTimeout: int)

  /** The token of the filter template that stands for the username. */
  const UsernamePlaceholder := "{username}"

  /** One call the resolver makes on its client, in order. */
  datatype ClientCall = Connect | Search(request: Ldap.SearchRequest) | Close

  // ---------------------------------------------------------------------------
  // Group-name extraction
  // ---------------------------------------------------------------------------

  /**
   * The condition at group/search.go:82: the upper-cased component starts
   * with the upper-cased key followed by `=`.
   */
  predicate KeyMatches(component: string, key: string)
    ensures KeyMatches(component, key) ==> |component| > |key| && component[|key|] == '='
  {
    HasPrefix(Upper(component), Upper(key) + "=")
  }

  /** Only `=` upper-cases to `=`. */
  lemma UpperCharOfEquals(c: char)
    ensures UpperChar(c) == '=' <==> c == '='
  {
  }

  /** The key match ignores ASCII case and needs `=` right after the key. */
  lemma KeyMatchesIgnoresCase(component: string, key: string)
    ensures KeyMatches(component, key) <==>
      && |component| > |key|
      && (forall i :: 0 <= i < |key| ==> UpperChar(component[i]) == UpperChar(key[i]))
      && component[|key|] == '='
  {
    var u, k := Upper(component), Upper(key) + "=";
    if |component| > |key| {
      assert (u[..|k|] == k) <==> (forall i :: 0 <= i < |k| ==> u[i] == k[i]) by {
        if forall i :: 0 <= i < |k| ==> u[i] == k[i] {
          assert u[..|k|] == k;
        }
      }
      assert forall i :: 0 <= i < |key| ==> k[i] == UpperChar(key[i]);
      assert k[|key|] == '=';
      UpperCharOfEquals(component[|key|]);
    }
  }

  /** The first matching component, sliced after its first three characters; "" when none matches. */
  function FirstMatch(components: seq<string>, key: string): string
    requires |key| >= 2
  {
    if |components| == 0 then ""
    else if KeyMatches(components[0], key) then components[0][3..]
    else FirstMatch(components[1..], key)
  }

  /**
   * The scan stops at the first matching component and returns it from index
   * 3 on; later matches are ignored, and without a match the result is "".
   */
  lemma {:induction false} FirstMatchIsFirst(components: seq<string>, key: string)
    requires |key| >= 2
    ensures (forall i :: 0 <= i < |components| ==> !KeyMatches(components[i], key)) ==>
      FirstMatch(components, key) == ""
    ensures forall i :: (0 <= i < |components| && KeyMatches(components[i], key) &&
                         (forall j :: 0 <= j < i ==> !KeyMatches(components[j], key))) ==>
      |components[i]| >= 3 && FirstMatch(components, key) == components[i][3..]
    decreases |components|
  {
    if |components| > 0 && !KeyMatches(components[0], key) {
      FirstMatchIsFirst(components[1..], key);
      assert forall i :: 0 < i < |components| ==> components[i] == components[1..][i - 1];
    }
  }

  /** The comma-separated components of a DN value (Go's `strings.Split(value, ",")`). */
  function Components(value: string): (parts: seq<string>)
    ensures |parts| >= 1
  {
    Split(value, ",")
  }

  /**
   * `extractUserGroupFrom`: split the value on every `,` (no escapes) and
   * take the first component that starts with the key and `=`, ignoring
   * case. The name is the component from index 3 on, which is the text after
   * `key=` only for two-character keys. Go's slice panics only when the
   * matching component is shorter than three bytes; a key of at least two
   * characters makes every matching component at least three long, hence the
   * precondition.
   */
  function ExtractUserGroupFrom(value: string, key: string): string
    requires |key| >= 2
  {
    FirstMatch(Components(value), key)
  }

  /**
   * The extracted name comes from the first matching component only, later
   * matches are ignored, and a value with no matching component gives "".
   */
  lemma ExtractUserGroupFromChoosesFirstMatch(value: string, key: string)
    requires |key| >= 2
    ensures var parts, g := Components(value), ExtractUserGroupFrom(value, key);
      && ((forall i :: 0 <= i < |parts| ==> !KeyMatches(parts[i], key)) ==> g == "")
      && (forall i :: (0 <= i < |parts| && KeyMatches(parts[i], key) &&
                       (forall j :: 0 <= j < i ==> !KeyMatches(parts[j], key))) ==>
            |parts[i]| >= 3 && g == parts[i][3..])
  {
    FirstMatchIsFirst(Components(value), key);
  }

  /** Joining comma-free components with commas and splitting again gives them back. */
  lemma ComponentsOfJoin(parts: seq<string>)
    requires |parts| >= 1
    requires forall k :: 0 <= k < |parts| ==> ',' !in parts[k]
    ensures Components(Join(parts, ",")) == parts
  {
    SplitJoin(parts, ',');
  }

  /**
   * A DN written as comma-free components joined by commas names the group of
   * the first component that matches, from index 3 on.
   */
  lemma ExtractFromJoin(parts: seq<string>, i: nat, key: string)
    requires |key| >= 2 && i < |parts|
    requires forall k :: 0 <= k < |parts| ==> ',' !in parts[k]
    requires KeyMatches(parts[i], key)
    requires forall j :: 0 <= j < i ==> !KeyMatches(parts[j], key)
    ensures |parts[i]| >= 3 && ExtractUserGroupFrom(Join(parts, ","), key) == parts[i][3..]
  {
    ComponentsOfJoin(parts);
    FirstMatchIsFirst(parts, key);
  }

  /** A comma-free first component that matches gives the name. */
  lemma ExtractFromMatchingHead(head: string, rest: string, key: string)
    requires |key| >= 2 && ',' !in head && KeyMatches(head, key)
    ensures |head| >= 3 && ExtractUserGroupFrom(head + "," + rest, key) == head[3..]
  {
    SplitAtFirstSeparator(head, ",", rest);
  }

  /** A comma-free first component that does not match is skipped. */
  lemma ExtractSkipsHead(head: string, rest: string, key: string)
    requires |key| >= 2 && ',' !in head && !KeyMatches(head, key)
    ensures ExtractUserGroupFrom(head + "," + rest, key) == ExtractUserGroupFrom(rest, key)
  {
    SplitAtFirstSeparator(head, ",", rest);
    assert ([head] + Components(rest))[1..] == Components(rest);
  }

  /** A comma-free value is one component: its name if it matches, "" otherwise. */
  lemma ExtractFromSingleComponent(value: string, key: string)
    requires |key| >= 2 && ',' !in value
    ensures KeyMatches(value, key) ==> |value| >= 3 && ExtractUserGroupFrom(value, key) == value[3..]
    ensures !KeyMatches(value, key) ==> ExtractUserGroupFrom(value, key) == ""
  {
    SplitWithoutSeparator(value, ',');
    FirstMatchIsFirst([value], key);
  }

  /** The non-empty group names of `values`, in order (the reference for the extraction loop). */
  function GroupsIn(values: seq<string>, key: string): (groups: seq<string>)
    requires |key| >= 2
    ensures "" !in groups
    ensures |groups| <= |values|
  {
    if |values| == 0 then []
    else
      var g := ExtractUserGroupFrom(values[0], key);
      (if g != "" then [g] else []) + GroupsIn(values[1..], key)
  }

  /** Group extraction distributes over concatenation: order is value order. */
  lemma {:induction false} GroupsInAppend(a: seq<string>, b: seq<string>, key: string)
    requires |key| >= 2
    ensures GroupsIn(a + b, key) == GroupsIn(a, key) + GroupsIn(b, key)
    decreases |a|
  {
    if |a| == 0 {
      assert a + b == b;
    } else {
      var g := ExtractUserGroupFrom(a[0], key);
      var head := if g != "" then [g] else [];
      assert (a + b)[0] == a[0];
      assert (a + b)[1..] == a[1..] + b;
      assert GroupsIn(a + b, key) == head + GroupsIn(a[1..] + b, key);
      GroupsInAppend(a[1..], b, key);
      assert head + (GroupsIn(a[1..], key) + GroupsIn(b, key))
          == (head + GroupsIn(a[1..], key)) + GroupsIn(b, key);
    }
  }

  /** A name is extracted exactly when some value yields it and it is not empty. */
  lemma {:induction false} GroupsInMembership(values: seq<string>, key: string, g: string)
    requires |key| >= 2
    ensures g in GroupsIn(values, key) <==>
      g != "" && exists k :: 0 <= k < |values| && ExtractUserGroupFrom(values[k], key) == g
    decreases |values|
  {
    if |values| > 0 {
      GroupsInMembership(values[1..], key, g);
      if exists k :: 0 <= k < |values[1..]| && ExtractUserGroupFrom(values[1..][k], key) == g {
        var k :| 0 <= k < |values[1..]| && ExtractUserGroupFrom(values[1..][k], key) == g;
        assert values[k + 1] == values[1..][k];
      }
      if exists k :: 0 <= k < |values| && ExtractUserGroupFrom(values[k], key) == g {
        var k :| 0 <= k < |values| && ExtractUserGroupFrom(values[k], key) == g;
        if k > 0 {
          assert values[1..][k - 1] == values[k];
        }
      }
    }
  }

  /** Every value of every attribute, attribute by attribute, each in its own order. */
  function AllValues(attributes: seq<Ldap.EntryAttribute>): seq<string> {
    if |attributes| == 0 then [] else attributes[0].values + AllValues(attributes[1..])
  }

  lemma {:induction false} AllValuesAppend(a: seq<Ldap.EntryAttribute>, b: seq<Ldap.EntryAttribute>)
    ensures AllValues(a + b) == AllValues(a) + AllValues(b)
    decreases |a|
  {
    if |a| == 0 {
      assert a + b == b;
    } else {
      assert (a + b)[0] == a[0];
      assert (a + b)[1..] == a[1..] + b;
      AllValuesAppend(a[1..], b);
    }
  }

  /** The groups named by a search reply: those of its first entry only, none when it is empty. */
  function GroupsOfReply(result: Ldap.SearchResult, key: string): seq<string>
    requires |result.entries| > 0 ==> |key| >= 2
  {
    if |result.entries| == 0 then [] else GroupsIn(AllValues(result.entries[0].attributes), key)
  }

  /** A value is scanned exactly when it is some value of some attribute. */
  lemma {:induction false} AllValuesMembership(attributes: seq<Ldap.EntryAttribute>, s: string)
    ensures s in AllValues(attributes) <==>
      exists a, v :: 0 <= a < |attributes| && 0 <= v < |attributes[a].values| && attributes[a].values[v] == s
    decreases |attributes|
  {
    if |attributes| > 0 {
      AllValuesMembership(attributes[1..], s);
      if s in attributes[0].values {
        var v :| 0 <= v < |attributes[0].values| && attributes[0].values[v] == s;
        assert attributes[0].values[v] == s;
      }
      if exists a, v :: 0 <= a < |attributes[1..]| && 0 <= v < |attributes[1..][a].values| && attributes[1..][a].values[v] == s {
        var a, v :| 0 <= a < |attributes[1..]| && 0 <= v < |attributes[1..][a].values| && attributes[1..][a].values[v] == s;
        assert attributes[a + 1].values[v] == s;
      }
      if exists a, v :: 0 <= a < |attributes| && 0 <= v < |attributes[a].values| && attributes[a].values[v] == s {
        var a, v :| 0 <= a < |attributes| && 0 <= v < |attributes[a].values| && attributes[a].values[v] == s;
        if a > 0 {
          assert attributes[1..][a - 1].values[v] == s;
        }
      }
    }
  }

  /**
   * The groups of a reply: a name is reported exactly when it is not empty and
   * some value of some attribute of the first entry yields it.
   */
  lemma GroupsOfReplyMembership(result: Ldap.SearchResult, key: string, g: string)
    requires |result.entries| > 0 ==> |key| >= 2
    ensures g in GroupsOfReply(result, key) <==>
      && g != ""
      && |result.entries| > 0
      && exists a, v :: 0 <= a < |result.entries[0].attributes| &&
           0 <= v < |result.entries[0].attributes[a].values| &&
           ExtractUserGroupFrom(result.entries[0].attributes[a].values[v], key) == g
  {
    if |result.entries| > 0 {
      var attributes := result.entries[0].attributes;
      var values := AllValues(attributes);
      GroupsInMembership(values, key, g);
      if exists k :: 0 <= k < |values| && ExtractUserGroupFrom(values[k], key) == g {
        var k :| 0 <= k < |values| && ExtractUserGroupFrom(values[k], key) == g;
        AllValuesMembership(attributes, values[k]);
        var a, v :| 0 <= a < |attributes| && 0 <= v < |attributes[a].values| && attributes[a].values[v] == values[k];
        assert ExtractUserGroupFrom(attributes[a].values[v], key) == g;
      }
      if exists a, v :: 0 <= a < |attributes| && 0 <= v < |attributes[a].values| &&
           ExtractUserGroupFrom(attributes[a].values[v], key) == g {
        var a, v :| 0 <= a < |attributes| && 0 <= v < |attributes[a].values| &&
          ExtractUserGroupFrom(attributes[a].values[v], key) == g;
        AllValuesMembership(attributes, attributes[a].values[v]);
        var k :| 0 <= k < |values| && values[k] == attributes[a].values[v];
        assert ExtractUserGroupFrom(values[k], key) == g;
      }
    }
  }

  /** The inner loop of `extractUserGroupsFrom`: the values of one attribute, in order. */
  method ExtractFromValues(values: seq<string>, key: string) returns (groups: seq<string>)
    requires |key| >= 2
    ensures groups == GroupsIn(values, key)
  {
    groups := [];
    var j := 0;
    while j < |values|
      invariant 0 <= j <= |values|
      invariant groups == GroupsIn(values[..j], key)
    {
      var g := ExtractUserGroupFrom(values[j], key);
      GroupsInAppend(values[..j], [values[j]], key);
      assert values[..j + 1] == values[..j] + [values[j]];
      if g != "" {
        groups := groups + [g];
      }
      j := j + 1;
    }
    assert values[..j] == values;
  }

  /**
   * `extractUserGroupsFrom`: only the first entry is read; its attributes are
   * scanned in order, whatever their names, keeping every non-empty name.
   */
  method ExtractUserGroupsFrom(result: Ldap.SearchResult, key: string) returns (groups: seq<string>)
    requires |result.entries| > 0 ==> |key| >= 2
    ensures groups == GroupsOfReply(result, key)
    ensures "" !in groups
  {
    groups := [];
    if |result.entries| > 0 {
      var attributes := result.entries[0].attributes;
      var i := 0;
      while i < |attributes|
        invariant 0 <= i <= |attributes|
        invariant groups == GroupsIn(AllValues(attributes[..i]), key)
      {
        var found := ExtractFromValues(attributes[i].values, key);
        GroupsInAppend(AllValues(attributes[..i]), attributes[i].values, key);
        AllValuesAppend(attributes[..i], [attributes[i]]);
        assert attributes[..i + 1] == attributes[..i] + [attributes[i]];
        assert AllValues([attributes[i]]) == attributes[i].values;
        groups := groups + found;
        i := i + 1;
      }
      assert attributes[..i] == attributes;
    }
  }

  // ---------------------------------------------------------------------------
  // Request construction and the connect / search / close sequence
  // ---------------------------------------------------------------------------

  /** The request `GetGroupsFor` sends: the details with the username put into the filter. */
  function RequestFor(details: SearchDetails, username: string): (r: Ldap.SearchRequest)
    ensures r.attributes == details.attributes
    ensures r.baseDn == details.baseDn
    ensures r.searchTimeout == details.searchTimeout
    ensures r.searchFilter == Join(Split(details.searchFilter, UsernamePlaceholder), username)
  {
    ReplaceAllIsSplitJoin(details.searchFilter, UsernamePlaceholder, username);
    Ldap.SearchRequest(details.attributes, details.baseDn,
                       ReplaceAll(details.searchFilter, UsernamePlaceholder, username),
                       details.searchTimeout)
  }

  /** A template without the placeholder is sent unchanged. */
  lemma FilterWithoutPlaceholderIsUnchanged(details: SearchDetails, username: string)
    requires !Occurs(details.searchFilter, UsernamePlaceholder)
    ensures RequestFor(details, username).searchFilter == details.searchFilter
  {
    ReplaceAllAbsent(details.searchFilter, UsernamePlaceholder, username);
  }

  /** A template with one placeholder and no `{` before it has the username put in its place. */
  lemma RequestReplacesPlaceholder(details: SearchDetails, username: string, head: string, tail: string)
    requires details.searchFilter == head + UsernamePlaceholder + tail
    requires '{' !in head && !Occurs(tail, UsernamePlaceholder)
    ensures RequestFor(details, username).searchFilter == head + username + tail
  {
    var p := UsernamePlaceholder;
    assert p[0] == '{';
    ReplaceAllIsSplitJoin(details.searchFilter, p, username);
    ReplaceAllAtFirstOccurrence(head, p, tail, username);
    ReplaceAllAbsent(tail, p, username);
  }

  /**
   * Every `{username}` of the template is replaced, not only the first: a
   * template with two placeholders gets the username in both places.
   */
  lemma RequestReplacesEachPlaceholder(details: SearchDetails, username: string,
                                       head: string, middle: string, tail: string)
    requires details.searchFilter == head + UsernamePlaceholder + middle + UsernamePlaceholder + tail
    requires '{' !in head && '{' !in middle && !Occurs(tail, UsernamePlaceholder)
    ensures RequestFor(details, username).searchFilter == head + username + middle + username + tail
  {
    var p := UsernamePlaceholder;
    assert p[0] == '{';
    assert details.searchFilter == head + p + (middle + p + tail);
    calc {
      RequestFor(details, username).searchFilter;
      ReplaceAll(head + p + (middle + p + tail), p, username);
      { ReplaceAllAtFirstOccurrence(head, p, middle + p + tail, username); }
      head + username + ReplaceAll(middle + p + tail, p, username);
      { ReplaceAllAtFirstOccurrence(middle, p, tail, username); }
      head + username + (middle + username + ReplaceAll(tail, p, username));
      { ReplaceAllAbsent(tail, p, username); }
      head + username + (middle + username + tail);
    }
  }

  /**
   * Any number of placeholders: a template made of `{`-free pieces joined by
   * `{username}` becomes the same pieces joined by the username.
   */
  lemma RequestReplacesEveryPlaceholder(details: SearchDetails, username: string, pieces: seq<string>)
    requires |pieces| >= 1 && details.searchFilter == Join(pieces, UsernamePlaceholder)
    requires forall k :: 0 <= k < |pieces| - 1 ==> '{' !in pieces[k]
    requires !Occurs(pieces[|pieces| - 1], UsernamePlaceholder)
    ensures RequestFor(details, username).searchFilter == Join(pieces, username)
  {
    assert UsernamePlaceholder[0] == '{';
    ReplaceAllJoin(pieces, UsernamePlaceholder, username);
  }

  /**
   * The client-call discipline: exactly one Connect, first; Close exactly
   * once and last when connected, never otherwise; at most one Search, and
   * only when connected.
   */
  predicate SessionDiscipline(calls: seq<ClientCall>, connected: bool) {
    && |calls| > 0
    && calls[0] == Connect
    && (forall i :: 0 < i < |calls| ==> calls[i] != Connect)
    && multiset(calls)[Close] == (if connected then 1 else 0)
    && (connected ==> calls[|calls| - 1] == Close)
    && (forall i :: 0 <= i < |calls| && calls[i].Search? ==> connected)
    && (forall i, j :: 0 <= i < j < |calls| && calls[i].Search? ==> !calls[j].Search?)
  }

  /** The two traces `GetGroupsFor` can produce both keep the session discipline. */
  lemma TracesKeepDiscipline(request: Ldap.SearchRequest)
    ensures SessionDiscipline([Connect], false)
    ensures SessionDiscipline([Connect, Search(request), Close], true)
  {
    var t := [Connect, Search(request), Close];
    assert multiset(t) == multiset{Connect, Search(request), Close};
    assert multiset([Connect]) == multiset{Connect};
  }

  /**
   * `GetGroupsFor` against an abstract client: `connectError` is what the
   * connect step returns and `searchReply` what the search returns. The
   * returned `calls` record the client calls in order.
   */
  method GetGroupsFor(details: SearchDetails, username: string,
                      connectError: Option<string>, searchReply: Result<Ldap.SearchResult, string>)
    returns (groups: Result<seq<string>, string>, calls: seq<ClientCall>)
    requires connectError.None? && searchReply.Success? && |searchReply.value.entries| > 0 ==>
      |details.groupAttribute| >= 2
    ensures SessionDiscipline(calls, connectError.None?)
    ensures connectError.Some? ==> calls == [Connect]
    ensures connectError.None? ==> calls == [Connect, Search(RequestFor(details, username)), Close]
    ensures connectError.Some? ==> groups == Failure(connectError.value)
    ensures connectError.None? && searchReply.Failure? ==> groups == Failure(searchReply.error)
    ensures connectError.None? && searchReply.Success? ==>
      groups == Success(GroupsOfReply(searchReply.value, details.groupAttribute))
    ensures groups.Success? ==> "" !in groups.value
  {
    var request := RequestFor(details, username);
    TracesKeepDiscipline(request);
    if connectError.Some? {
      return Failure(connectError.value), [Connect];
    }
    match searchReply {
      case Failure(e) =>
        groups := Failure(e);
      case Success(result) =>
        var names := ExtractUserGroupsFrom(result, details.groupAttribute);
        groups := Success(names);
    }
    // the search ran, and the deferred Close runs on every return path after a successful connect
    calls := [Connect, Search(request), Close];
  }
}
