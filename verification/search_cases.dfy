/**
 * The concrete cases of group/search_test.go, proved about the model. DN
 * values are written as the join of their components so that the proofs
 * can go through the split/join round trip.
 */
module SearchCases {
  import opened Wrappers
  import opened Strings
  import opened Group
  import Ldap

  /** A component spelling `cn` in any case, then `=`, matches the key `cn`. */
  lemma MatchesCn(component: string)
    requires |component| > 2 && UpperChar(component[0]) == 'C' && UpperChar(component[1]) == 'N'
    requires component[2] == '='
    ensures KeyMatches(component, "cn")
  {
    KeyMatchesIgnoresCase(component, "cn");
  }

  /** A component whose first letter is not a `c` in either case does not match `cn`. */
  lemma DiffersFromCn(component: string)
    requires |component| > 0 && UpperChar(component[0]) != 'C'
    ensures !KeyMatches(component, "cn")
  {
    KeyMatchesIgnoresCase(component, "cn");
  }

  /** Every case spelling of the key `cn` matches a component that starts with it and `=`. */
  lemma KeyCaseVariantsMatch()
    ensures KeyMatches("CN=London team", "cn")
    ensures KeyMatches("cn=New York team", "cn")
    ensures KeyMatches("cN=Paris team", "cn")
    ensures KeyMatches("Cn=Brussels team", "cn")
    ensures !KeyMatches("cnx=Elsewhere", "cn")
  {
    MatchesCn("CN=London team");
    MatchesCn("cn=New York team");
    MatchesCn("cN=Paris team");
    MatchesCn("Cn=Brussels team");
    KeyMatchesIgnoresCase("cnx=Elsewhere", "cn");
  }

  /** The four membership values of the test record and the two values of its other attributes. */
  const London := ["CN=London team", "OU=Distribution Lists", "DC=com"]
  const NewYork := ["OU=Distribution Lists", "cn=New York team", "DC=com", "DC=EDFR", "DC=DFER", "DC=com"]
  const Paris := ["OU=Dave DLs", "DC=SWD", "DC=DFER", "DC=com", "cN=Paris team"]
  const Brussels := ["Cn=Brussels team", "OU=John DLs", "DC=SWE", "DC=DFER", "DC=com"]
  const Uid := "fsdf56sdf54fs645f"
  const Description := "Something about Dave"

  /** Facts about the components of one test value: none has a comma, and only the `i`th can match. */
  predicate NamesGroupAt(parts: seq<string>, i: nat)
  {
    && i < |parts|
    && (forall k :: 0 <= k < |parts| ==> ',' !in parts[k])
    && KeyMatches(parts[i], "cn")
    && (forall j :: 0 <= j < i ==> !KeyMatches(parts[j], "cn"))
  }

  lemma LondonComponents()
    ensures NamesGroupAt(London, 0)
  {
    MatchesCn(London[0]);
  }

  lemma NewYorkComponents()
    ensures NamesGroupAt(NewYork, 1)
  {
    DiffersFromCn(NewYork[0]);
    MatchesCn(NewYork[1]);
  }

  lemma ParisComponents()
    ensures NamesGroupAt(Paris, 4)
  {
    forall j | 0 <= j < 4
      ensures !KeyMatches(Paris[j], "cn")
    {
      DiffersFromCn(Paris[j]);
    }
    MatchesCn(Paris[4]);
  }

  lemma BrusselsComponents()
    ensures NamesGroupAt(Brussels, 0)
  {
    MatchesCn(Brussels[0]);
  }

  lemma LondonValue(value: string)
    requires value == Join(London, ",")
    ensures ExtractUserGroupFrom(value, "cn") == "London team"
  {
    LondonComponents();
    ExtractFromJoin(London, 0, "cn");
  }

  lemma NewYorkValue(value: string)
    requires value == Join(NewYork, ",")
    ensures ExtractUserGroupFrom(value, "cn") == "New York team"
  {
    NewYorkComponents();
    ExtractFromJoin(NewYork, 1, "cn");
  }

  lemma ParisValue(value: string)
    requires value == Join(Paris, ",")
    ensures ExtractUserGroupFrom(value, "cn") == "Paris team"
  {
    ParisComponents();
    ExtractFromJoin(Paris, 4, "cn");
  }

  lemma BrusselsValue(value: string)
    requires value == Join(Brussels, ",")
    ensures ExtractUserGroupFrom(value, "cn") == "Brussels team"
  {
    BrusselsComponents();
    ExtractFromJoin(Brussels, 0, "cn");
  }

  /** A value with no matching component contributes nothing. */
  lemma OtherValue(value: string)
    requires value == Uid || value == Description
    ensures ExtractUserGroupFrom(value, "cn") == ""
  {
    ExtractFromSingleComponent(value, "cn");
    KeyMatchesIgnoresCase(value, "cn");
  }

  /** Six values, four of which name a group, give those four names in value order. */
  lemma GroupsOfSixValues(v: seq<string>)
    requires |v| == 6
    requires ExtractUserGroupFrom(v[0], "cn") == "London team"
    requires ExtractUserGroupFrom(v[1], "cn") == "New York team"
    requires ExtractUserGroupFrom(v[2], "cn") == "Paris team"
    requires ExtractUserGroupFrom(v[3], "cn") == "Brussels team"
    requires ExtractUserGroupFrom(v[4], "cn") == "" && ExtractUserGroupFrom(v[5], "cn") == ""
    ensures GroupsIn(v, "cn") == ["London team", "New York team", "Paris team", "Brussels team"]
  {
    assert GroupsIn(v[5..], "cn") == [] by { assert v[5..][1..] == []; }
    assert GroupsIn(v[4..], "cn") == [] by { assert v[4..][1..] == v[5..]; }
    assert GroupsIn(v[3..], "cn") == ["Brussels team"] by { assert v[3..][1..] == v[4..]; }
    assert GroupsIn(v[2..], "cn") == ["Paris team", "Brussels team"] by { assert v[2..][1..] == v[3..]; }
    assert GroupsIn(v[1..], "cn") == ["New York team", "Paris team", "Brussels team"] by {
      assert v[1..][1..] == v[2..];
    }
  }

  /** The record's shape: groups follow attribute order, then value order, across every attribute. */
  lemma RecordGroups(london: string, newYork: string, paris: string, brussels: string,
                     uid: string, description: string, result: Ldap.SearchResult)
    requires ExtractUserGroupFrom(london, "cn") == "London team"
    requires ExtractUserGroupFrom(newYork, "cn") == "New York team"
    requires ExtractUserGroupFrom(paris, "cn") == "Paris team"
    requires ExtractUserGroupFrom(brussels, "cn") == "Brussels team"
    requires ExtractUserGroupFrom(uid, "cn") == "" && ExtractUserGroupFrom(description, "cn") == ""
    requires result == Ldap.SearchResult([
      Ldap.Entry("cn=dave-jones,OU=User Policies,OU=All Users,DC=FAE,DC=CORPORATE,", [
        Ldap.EntryAttribute("memberOf", [london, newYork, paris, brussels]),
        Ldap.EntryAttribute("uid", [uid]),
        Ldap.EntryAttribute("description", [description])])])
    ensures GroupsOfReply(result, "cn") == ["London team", "New York team", "Paris team", "Brussels team"]
  {
    var attributes := result.entries[0].attributes;
    var v := [london, newYork, paris, brussels, uid, description];
    assert AllValues(attributes) == v by {
      assert attributes[1..][1..] == [attributes[2]];
      assert AllValues([attributes[2]]) == attributes[2].values;
      assert AllValues(attributes[1..]) == attributes[1].values + attributes[2].values;
    }
    GroupsOfSixValues(v);
  }

  /** The record of the extraction test, with its DN values written out in full. */
  lemma TestRecordGroups(london: string, newYork: string, paris: string, brussels: string,
                         result: Ldap.SearchResult)
    requires london == Join(London, ",") && newYork == Join(NewYork, ",")
    requires paris == Join(Paris, ",") && brussels == Join(Brussels, ",")
    requires result == Ldap.SearchResult([
      Ldap.Entry("cn=dave-jones,OU=User Policies,OU=All Users,DC=FAE,DC=CORPORATE,", [
        Ldap.EntryAttribute("memberOf", [london, newYork, paris, brussels]),
        Ldap.EntryAttribute("uid", [Uid]),
        Ldap.EntryAttribute("description", [Description])])])
    ensures GroupsOfReply(result, "cn") == ["London team", "New York team", "Paris team", "Brussels team"]
  {
    LondonValue(london);
    NewYorkValue(newYork);
    ParisValue(paris);
    BrusselsValue(brussels);
    OtherValue(Uid);
    OtherValue(Description);
    RecordGroups(london, newYork, paris, brussels, Uid, Description, result);
  }

  /** No entries: no groups, and no error. */
  lemma EmptyReplyHasNoGroups()
    ensures GroupsOfReply(Ldap.SearchResult([]), "cn") == []
  {
  }

  /** The filter of the tests: `{username}` replaced by `dave-jones`. */
  lemma TestFilter(details: SearchDetails, request: Ldap.SearchRequest)
    requires details.searchFilter == "(mailNickname={username})"
    requires request == RequestFor(details, "dave-jones")
    ensures request.searchFilter == "(mailNickname=dave-jones)"
  {
    var head, tail, username := "(mailNickname=", ")", "dave-jones";
    assert details.searchFilter == head + UsernamePlaceholder + tail;
    assert request.searchFilter == head + username + tail by {
      ShorterHasNoOccurrence(tail, UsernamePlaceholder);
      RequestReplacesPlaceholder(details, username, head, tail);
    }
  }

  /** The search details of the session tests: every field empty, the group attribute too. */
  const EmptyDetails := SearchDetails([], "", "", "", 0)

  /**
   * A connect error is returned as it is, with no search and no close, even
   * though the group attribute is empty.
   */
  method ConnectErrorIsReturned(searchReply: Result<Ldap.SearchResult, string>)
    returns (groups: Result<seq<string>, string>, calls: seq<ClientCall>)
    ensures groups == Failure("Meh")
    ensures calls == [Connect]
  {
    groups, calls := GetGroupsFor(EmptyDetails, "dave-jones", Some("Meh"), searchReply);
  }

  /**
   * With a successful connect and an empty reply, the session is connected
   * first and closed last, and no group is found, even though the group
   * attribute is empty.
   */
  method ConnectAndCloseAreCalled() returns (groups: Result<seq<string>, string>, calls: seq<ClientCall>)
    ensures groups == Success([])
    ensures |calls| > 0 && calls[0] == Connect && calls[|calls| - 1] == Close
  {
    groups, calls := GetGroupsFor(EmptyDetails, "dave-jones", None, Success(Ldap.SearchResult([])));
  }

  /** A key longer than two characters keeps the `=` in the name: the fixed slice at index 3. */
  lemma LongerKeyKeepsEquals(value: string)
    requires value == "uid=jdoe"
    ensures ExtractUserGroupFrom(value, "uid") == "=jdoe"
  {
    ExtractFromSingleComponent(value, "uid");
    KeyMatchesIgnoresCase(value, "uid");
  }
}
