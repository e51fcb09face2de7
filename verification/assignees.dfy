/** Resolution of the `--assignee` option of `tsrc push`: a name fragment is
    matched, without regard to accents or letter case, against the display
    names of the forge's active users, and must single out exactly one. */
module Assignees {
  import opened Strings

  /** One entry of the forge's active-user list: its `id` and `name`. */
  datatype User = User(id: int, name: string)

  /** Why a pattern does not single out a user. `NoUserFound` keeps the
      pattern and every user name, from which the "did you mean" hint is
      computed; `SeveralUsers` keeps the matched names in list order. */
  datatype AssigneeError =
    | NoUserFound(pattern: string, candidates: seq<string>)
    | SeveralUsers(pattern: string, matched: seq<string>)

  /** The transliteration to ASCII done by the `unidecode` library. Its table
      is not modelled: it is a parameter of everything that needs it. */
  type Transliteration = string -> string

  /** `sanitize`: transliterate, then lower-case. The result is the
      transliteration up to letter case, with no capital letter left. */
  function Sanitize(unidecode: Transliteration, s: string): (r: string)
    ensures EqualIgnoringCase(r, unidecode(s))
    ensures forall i :: 0 <= i < |r| ==> !IsUpper(r[i])
  {
    Lower(unidecode(s))
  }

  /** A user matches when the sanitized pattern occurs in the sanitized name. */
  function Matches(unidecode: Transliteration, pattern: string, user: User): (m: bool)
    ensures m <==> IsSubstring(Sanitize(unidecode, pattern), Sanitize(unidecode, user.name))
  {
    Contains(Sanitize(unidecode, user.name), Sanitize(unidecode, pattern))
  }

  /** The matching users, in the order of the list. */
  function Matching(unidecode: Transliteration, pattern: string, users: seq<User>): (m: seq<User>)
    ensures |m| <= |users|
    ensures forall k :: 0 <= k < |m| ==> m[k] in users && Matches(unidecode, pattern, m[k])
    decreases |users|
  {
    if |users| == 0 then []
    else
      var last := users[|users| - 1];
      var front := users[..|users| - 1];
      var m := Matching(unidecode, pattern, front);
      assert forall k :: 0 <= k < |m| ==> m[k] in users by {
        assert forall u :: u in front ==> u in users;
      }
      if Matches(unidecode, pattern, last) then m + [last] else m
  }

  /** A user is among the matches exactly when it is listed and matches. */
  lemma {:induction false} MatchingMembers(unidecode: Transliteration, pattern: string, users: seq<User>, u: User)
    ensures u in Matching(unidecode, pattern, users) <==> u in users && Matches(unidecode, pattern, u)
    decreases |users|
  {
    if |users| > 0 {
      var front := users[..|users| - 1];
      MatchingMembers(unidecode, pattern, front, u);
      assert users == front + [users[|users| - 1]];
    }
  }

  /** Matching keeps list order: the matches of a concatenation are the
      matches of the first part followed by those of the second. */
  lemma {:induction false} MatchingConcat(unidecode: Transliteration, pattern: string, a: seq<User>, b: seq<User>)
    ensures Matching(unidecode, pattern, a + b) == Matching(unidecode, pattern, a) + Matching(unidecode, pattern, b)
    decreases |b|
  {
    if |b| == 0 {
      assert a + b == a;
    } else {
      var ab := a + b;
      assert ab[..|ab| - 1] == a + b[..|b| - 1];
      assert ab[|ab| - 1] == b[|b| - 1];
      MatchingConcat(unidecode, pattern, a, b[..|b| - 1]);
    }
  }

  /** Matching ignores letter case: two patterns whose transliterations differ
      only in case select the same users. */
  lemma {:induction false} MatchingIgnoresCase(unidecode: Transliteration, p: string, q: string, users: seq<User>)
    requires EqualIgnoringCase(unidecode(p), unidecode(q))
    ensures Matching(unidecode, p, users) == Matching(unidecode, q, users)
    decreases |users|
  {
    LowerIgnoresCase(unidecode(p), unidecode(q));
    if |users| > 0 {
      MatchingIgnoresCase(unidecode, p, q, users[..|users| - 1]);
    }
  }

  /** `[x["name"] for x in users]` */
  function Names(users: seq<User>): (names: seq<string>)
    ensures |names| == |users|
    ensures forall k :: 0 <= k < |users| ==> names[k] == users[k].name
  {
    seq(|users|, k requires 0 <= k < |users| => users[k].name)
  }

  /** `get_assignee` for a non-empty pattern: the one matching user, or why
      there is not exactly one. */
  function Resolve(unidecode: Transliteration, pattern: string, users: seq<User>): (r: Result<User, AssigneeError>)
    ensures r.Success? <==> |Matching(unidecode, pattern, users)| == 1
    ensures r.Success? ==> r.value in users && Matches(unidecode, pattern, r.value)
    ensures r.Failure? && r.error.NoUserFound? <==> forall u :: u in users ==> !Matches(unidecode, pattern, u)
    ensures r.Failure? && r.error.NoUserFound? ==> r.error == NoUserFound(pattern, Names(users))
    ensures r.Failure? && r.error.SeveralUsers? ==>
              r.error.pattern == pattern && |r.error.matched| >= 2 &&
              r.error.matched == Names(Matching(unidecode, pattern, users))
  {
    var matches := Matching(unidecode, pattern, users);
    assert (forall u :: u in users ==> !Matches(unidecode, pattern, u)) <==> |matches| == 0 by {
      forall u | u in users {
        MatchingMembers(unidecode, pattern, users, u);
      }
      if |matches| > 0 {
        MatchingMembers(unidecode, pattern, users, matches[0]);
      }
    }
    if |matches| == 0 then Failure(NoUserFound(pattern, Names(users)))
    else if |matches| > 1 then Failure(SeveralUsers(pattern, Names(matches)))
    else Success(matches[0])
  }

  /** A resolved user is the only entry of the list that matches. */
  lemma ResolvedUserIsUnique(unidecode: Transliteration, pattern: string, users: seq<User>, i: int)
    requires Resolve(unidecode, pattern, users).Success?
    requires 0 <= i < |users| && Matches(unidecode, pattern, users[i])
    ensures users[i] == Resolve(unidecode, pattern, users).value
    ensures forall j :: 0 <= j < |users| && j != i ==> !Matches(unidecode, pattern, users[j])
  {
    var m := Matching(unidecode, pattern, users);
    MatchingMembers(unidecode, pattern, users, users[i]);
    forall j | 0 <= j < |users| && j != i
      ensures !Matches(unidecode, pattern, users[j])
    {
      var lo, hi := if i < j then i else j, if i < j then j else i;
      assert users == users[..lo] + [users[lo]] + users[lo + 1..hi] + [users[hi]] + users[hi + 1..];
      if Matches(unidecode, pattern, users[j]) {
        TwoMatchesAreSeveral(unidecode, pattern, users, lo, hi);
      }
    }
  }

  /** Two matching entries, even equal ones, make at least two matches. */
  lemma TwoMatchesAreSeveral(unidecode: Transliteration, pattern: string, users: seq<User>, lo: int, hi: int)
    requires 0 <= lo < hi < |users|
    requires Matches(unidecode, pattern, users[lo]) && Matches(unidecode, pattern, users[hi])
    ensures |Matching(unidecode, pattern, users)| >= 2
  {
    var a, b := users[..lo + 1], users[lo + 1..];
    assert users == a + b;
    MatchingConcat(unidecode, pattern, a, b);
    assert a == a[..lo] + [users[lo]];
    MatchingConcat(unidecode, pattern, a[..lo], [users[lo]]);
    assert Matching(unidecode, pattern, [users[lo]]) == [users[lo]] by {
      assert [users[lo]][..0] == [];
    }
    MatchingMembers(unidecode, pattern, b, users[hi]);
    assert users[hi] == b[hi - lo - 1];
  }

  /** The `get_assignee` loop: walk the users alongside their sanitized names,
      collect the matches, then decide. */
  method GetAssignee(unidecode: Transliteration, pattern: string, users: seq<User>) returns (r: Result<User, AssigneeError>)
    ensures r == Resolve(unidecode, pattern, users)
  {
    var sanitizedPattern := Sanitize(unidecode, pattern);
    var matches: seq<User> := [];
    var i := 0;
    while i < |users|
      invariant 0 <= i <= |users|
      invariant matches == Matching(unidecode, pattern, users[..i])
    {
      assert users[..i + 1][..i] == users[..i];
      if Contains(Sanitize(unidecode, users[i].name), sanitizedPattern) {
        matches := matches + [users[i]];
      }
      i := i + 1;
    }
    assert users[..|users|] == users;
    if |matches| == 0 {
      r := Failure(NoUserFound(pattern, Names(users)));
    } else if |matches| > 1 {
      r := Failure(SeveralUsers(pattern, Names(matches)));
    } else {
      r := Success(matches[0]);
    }
  }

  /** The text of the error raised for several matches: it names the
      pattern, then lists every matched name. */
  function SeveralUsersMessage(pattern: string, matched: seq<string>): (message: string)
    ensures StartsWith(message, "Found several users matching " + pattern + ": ")
    ensures forall k :: 0 <= k < |matched| ==> IsSubstring(matched[k], message)
  {
    var head := "Found several users matching " + pattern + ": ";
    var names := Join(matched, ", ");
    assert forall k :: 0 <= k < |matched| ==> IsSubstring(matched[k], head + names) by {
      forall k | 0 <= k < |matched|
        ensures IsSubstring(matched[k], head + names)
      {
        SubstringOfConcat(matched[k], head, names);
      }
    }
    assert (head + names)[..|head|] == head;
    head + names
  }

  /** Accent- and case-insensitivity: "jose" picks out "José García" once
      `unidecode` folds the accents. */
  lemma AccentedNameExample(unidecode: Transliteration, jose: User)
    requires jose == User(7, "José García")
    requires unidecode("José García") == "Jose Garcia" && unidecode("jose") == "jose"
    ensures Resolve(unidecode, "jose", [jose]) == Success(jose)
  {
    var name := Sanitize(unidecode, jose.name);
    assert name[..4] == "jose";
    assert Matches(unidecode, "jose", jose);
    assert [jose][..0] == [];
  }

  /** "ali" is ambiguous between "Alice Smith" and "Alicia Stone"; the error
      names both, in list order. */
  lemma AmbiguousExample(unidecode: Transliteration, alice: User, alicia: User)
    requires alice == User(1, "Alice Smith") && alicia == User(2, "Alicia Stone")
    requires unidecode("Alice Smith") == "Alice Smith" && unidecode("Alicia Stone") == "Alicia Stone"
    requires unidecode("ali") == "ali"
    ensures Resolve(unidecode, "ali", [alice, alicia]) == Failure(SeveralUsers("ali", ["Alice Smith", "Alicia Stone"]))
  {
    AliMatchesBoth(unidecode, alice, alicia);
    var users := [alice, alicia];
    assert users[..1] == [alice] && [alice][..0] == [];
    assert Matching(unidecode, "ali", [alice]) == [alice];
    assert Matching(unidecode, "ali", users) == users;
    assert Names(users) == ["Alice Smith", "Alicia Stone"];
  }

  lemma AliMatchesBoth(unidecode: Transliteration, alice: User, alicia: User)
    requires alice == User(1, "Alice Smith") && alicia == User(2, "Alicia Stone")
    requires unidecode("Alice Smith") == "Alice Smith" && unidecode("Alicia Stone") == "Alicia Stone"
    requires unidecode("ali") == "ali"
    ensures Matches(unidecode, "ali", alice) && Matches(unidecode, "ali", alicia)
  {
    assert Sanitize(unidecode, alice.name)[..3] == "ali";
    assert Sanitize(unidecode, alicia.name)[..3] == "ali";
    assert Sanitize(unidecode, "ali") == "ali";
  }

  /** The message raised for that ambiguity joins the names with ", ". The
      names are pinned by the precondition rather than given as a literal
      argument, so that the verifier does not unfold the join eagerly. */
  lemma SeveralUsersMessageExample(names: seq<string>)
    requires names == ["Alice Smith", "Alicia Stone"]
    ensures SeveralUsersMessage("ali", names) == "Found several users matching ali: Alice Smith, Alicia Stone"
  {
    JoinPair(names[0], names[1], ", ");
    assert names == [names[0], names[1]];
    assert "Found several users matching " + "ali" + ": " + ("Alice Smith" + ", " + "Alicia Stone") ==
           "Found several users matching ali: Alice Smith, Alicia Stone";
  }

  /** "zzz" matches nobody in ["Bob Lee"]: the error carries the full name
      list for the hint. */
  lemma NotFoundExample(unidecode: Transliteration, bob: User)
    requires bob == User(3, "Bob Lee")
    requires unidecode("Bob Lee") == "Bob Lee" && unidecode("zzz") == "zzz"
    ensures Resolve(unidecode, "zzz", [bob]) == Failure(NoUserFound("zzz", ["Bob Lee"]))
  {
    var name := Sanitize(unidecode, bob.name);
    assert name == "bob lee";
    assert !IsSubstring("zzz", name) by {
      forall i | 0 <= i <= |name|
        ensures !OccursAt(name, "zzz", i)
      {
        if i + 3 <= |name| {
          assert name[i..i + 3][0] == name[i];
        }
      }
    }
    assert Sanitize(unidecode, "zzz") == "zzz";
    assert !Matches(unidecode, "zzz", bob);
    assert [bob][..0] == [];
    assert Matching(unidecode, "zzz", [bob]) == [];
    assert Names([bob]) == ["Bob Lee"];
  }
}
