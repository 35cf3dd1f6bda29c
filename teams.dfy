/** The pure tail of `getTeamMembers` (src/utils.js:60-77): the member lists
    returned for each team slug are flattened into one list of logins. The
    parallel `listMembersInOrg` requests are a directory from team slug to
    response; a slug the directory lacks stands for a rejected request, which
    makes `Promise.all` reject as a whole. A response is one unpaginated
    page of the team's members, taken as given. */
module Teams {
  import opened Errors

  datatype Member = Member(login: string)

  /** The part of a `listMembersInOrg` response the helper reads. */
  datatype TeamMembersResponse = TeamMembersResponse(data: seq<Member>)

  /** `.map((response) => response.data)` */
  function Data(responses: seq<TeamMembersResponse>): (r: seq<seq<Member>>)
    ensures |r| == |responses| && forall i :: 0 <= i < |r| ==> r[i] == responses[i].data
  {
    seq(|responses|, i requires 0 <= i < |responses| => responses[i].data)
  }

  /** `.reduce((all, cur) => all.concat(cur), all)`: a left fold. */
  function ConcatFrom(all: seq<Member>, rest: seq<seq<Member>>): seq<Member>
    decreases |rest|
  {
    if rest == [] then all else ConcatFrom(all + rest[0], rest[1..])
  }

  /** `.map((user) => user.login)` */
  function Logins(members: seq<Member>): (r: seq<string>)
    ensures |r| == |members| && forall i :: 0 <= i < |r| ==> r[i] == members[i].login
  {
    seq(|members|, i requires 0 <= i < |members| => members[i].login)
  }

  /** The logins `getTeamMembers` returns once every request succeeded. */
  function ResponseLogins(responses: seq<TeamMembersResponse>): seq<string>
  {
    Logins(ConcatFrom([], Data(responses)))
  }

  /** The responses of the requests, one per team slug, in slug order. */
  function Responses(teamNames: seq<string>, directory: map<string, TeamMembersResponse>): (r: seq<TeamMembersResponse>)
    requires forall t :: t in teamNames ==> t in directory
    ensures |r| == |teamNames| && forall i :: 0 <= i < |r| ==> r[i] == directory[teamNames[i]]
  {
    seq(|teamNames|, i requires 0 <= i < |teamNames| => directory[teamNames[i]])
  }

  /** Reference reading of the result: the first team's logins, then the
      logins of the teams after it. */
  function LoginsInTeamOrder(teamNames: seq<string>, directory: map<string, TeamMembersResponse>): seq<string>
    requires forall t :: t in teamNames ==> t in directory
  {
    if teamNames == [] then []
    else Logins(directory[teamNames[0]].data) + LoginsInTeamOrder(teamNames[1..], directory)
  }

  /** `getTeamMembers(octokit, org, teamNames)` with the requests answered
      from `directory`. */
  function GetTeamMembers(teamNames: seq<string>, directory: map<string, TeamMembersResponse>): (r: Result<seq<string>>)
    ensures r.Failure? <==> exists t :: t in teamNames && t !in directory
    ensures r.Failure? ==> r.error == TeamMembersUnavailable
    ensures r.Success? ==> r.value == LoginsInTeamOrder(teamNames, directory)
  {
    if forall t :: t in teamNames ==> t in directory then
      TeamOrder(teamNames, directory);
      Success(ResponseLogins(Responses(teamNames, directory)))
    else
      Failure(TeamMembersUnavailable)
  }

  /** The fold appends the member lists one after the other. */
  lemma {:induction false} ConcatFromAppends(all: seq<Member>, rest: seq<seq<Member>>)
    ensures ConcatFrom(all, rest) == all + ConcatFrom([], rest)
    decreases |rest|
  {
    if rest != [] {
      ConcatFromAppends(all + rest[0], rest[1..]);
      ConcatFromAppends(rest[0], rest[1..]);
      assert [] + rest[0] == rest[0];
    }
  }

  lemma {:induction false} LoginsConcat(a: seq<Member>, b: seq<Member>)
    ensures Logins(a + b) == Logins(a) + Logins(b)
  {
  }

  /** The flattened logins are each team's logins in the order of the team
      slugs. */
  lemma {:induction false} TeamOrder(teamNames: seq<string>, directory: map<string, TeamMembersResponse>)
    requires forall t :: t in teamNames ==> t in directory
    ensures ResponseLogins(Responses(teamNames, directory)) == LoginsInTeamOrder(teamNames, directory)
  {
    if teamNames != [] {
      var rest := teamNames[1..];
      TeamOrder(rest, directory);
      var first := directory[teamNames[0]].data;
      var data := Data(Responses(teamNames, directory));
      assert data[1..] == Data(Responses(rest, directory));
      calc {
        ConcatFrom([], data);
        ConcatFrom([] + first, data[1..]);
        { assert [] + first == first; }
        ConcatFrom(first, data[1..]);
        { ConcatFromAppends(first, data[1..]); }
        first + ConcatFrom([], data[1..]);
      }
      LoginsConcat(first, ConcatFrom([], data[1..]));
    }
  }

  /** Duplicates are kept: the result is as long as all member lists together. */
  lemma {:induction false} TeamOrderLength(teamNames: seq<string>, directory: map<string, TeamMembersResponse>)
    requires forall t :: t in teamNames ==> t in directory
    ensures |LoginsInTeamOrder(teamNames, directory)| == MemberCount(teamNames, directory)
  {
    if teamNames != [] {
      TeamOrderLength(teamNames[1..], directory);
    }
  }

  function MemberCount(teamNames: seq<string>, directory: map<string, TeamMembersResponse>): nat
    requires forall t :: t in teamNames ==> t in directory
  {
    if teamNames == [] then 0 else |directory[teamNames[0]].data| + MemberCount(teamNames[1..], directory)
  }

  /** A login is returned exactly when it appears in one of the teams' responses. */
  lemma {:induction false} TeamOrderMembers(teamNames: seq<string>, directory: map<string, TeamMembersResponse>, login: string)
    requires forall t :: t in teamNames ==> t in directory
    ensures login in LoginsInTeamOrder(teamNames, directory) <==>
      exists t :: t in teamNames && Member(login) in directory[t].data
  {
    if teamNames != [] {
      TeamOrderMembers(teamNames[1..], directory, login);
      var first := directory[teamNames[0]].data;
      assert login in Logins(first) <==> Member(login) in first by {
        if login in Logins(first) {
          var i :| 0 <= i < |first| && Logins(first)[i] == login;
          assert first[i] == Member(login);
        }
        if Member(login) in first {
          var i :| 0 <= i < |first| && first[i] == Member(login);
          assert Logins(first)[i] == login;
        }
      }
      assert forall t :: t in teamNames <==> t == teamNames[0] || t in teamNames[1..];
    }
  }

  /** Two teams of the test fixtures: the logins come team by team, each in
      the order its response lists them. */
  lemma {:induction false} TwoTeamsExample()
    ensures GetTeamMembers(["teamA", "teamB"], map[
      "teamA" := TeamMembersResponse([Member("userA1"), Member("userA2")]),
      "teamB" := TeamMembersResponse([Member("userB1")])]) == Success(["userA1", "userA2", "userB1"])
  {
    var directory := map[
      "teamA" := TeamMembersResponse([Member("userA1"), Member("userA2")]),
      "teamB" := TeamMembersResponse([Member("userB1")])];
    var teamNames := ["teamA", "teamB"];
    assert teamNames[1..] == ["teamB"];
    assert teamNames[1..][1..] == [];
    assert Logins(directory["teamA"].data) == ["userA1", "userA2"];
    assert Logins(directory["teamB"].data) == ["userB1"];
    assert forall t :: t in teamNames ==> t in directory;
    assert LoginsInTeamOrder(teamNames[1..], directory) == ["userB1"];
    assert LoginsInTeamOrder(teamNames, directory) == ["userA1", "userA2"] + ["userB1"];
    var r := GetTeamMembers(teamNames, directory);
    assert r.Success?;
    assert r.value == ["userA1", "userA2", "userB1"];
  }
}
