/** users/models.py: the User table and the Follow edges, with the
    constraints the schema declares. */
module UsersModels {
  import opened Collections
  import UsersValidators

  type UserId = int

  /** A user row. `email` is the login identifier (USERNAME_FIELD). */
  datatype User = User(username: string, email: string, firstName: string, lastName: string, password: string)

  /** A Follow row: `user` subscribes to `author`. */
  datatype Follow = Follow(user: UserId, author: UserId)

  /** `username` and `email` are both unique. */
  ghost predicate UsersUnique(users: map<UserId, User>) {
    forall a, b :: a in users && b in users && a != b ==>
      users[a].username != users[b].username && users[a].email != users[b].email
  }

  /** Every stored username passed `validator_username`. */
  ghost predicate UsernamesValid(users: map<UserId, User>, allowed: set<char>) {
    forall u :: u in users ==> UsersValidators.ValidatorUsername(users[u].username, allowed).Success?
  }

  /** At most one Follow per (user, author), and both ends are users. The
      table itself does not forbid `user == author`. */
  ghost predicate FollowsValid(follows: seq<Follow>, userIds: set<UserId>) {
    Distinct(follows) && forall k :: 0 <= k < |follows| ==> follows[k].user in userIds && follows[k].author in userIds
  }

  /** The store's constraints admit a self-follow; only the serializer excludes it. */
  lemma SelfFollowIsStorable(u: UserId)
    ensures FollowsValid([Follow(u, u)], {u})
  {
  }

  /** The rows of `follows` whose author is `author`: what `Follow.objects.filter(author=author)` selects. */
  function FollowersOf(follows: seq<Follow>, author: UserId): (r: seq<Follow>)
    ensures forall f :: f in r <==> f in follows && f.author == author
  {
    Filter(follows, (f: Follow) => f.author == author)
  }

  lemma FollowersOfCons(s: seq<Follow>, y: Follow, author: UserId)
    ensures FollowersOf([y] + s, author) == (if y.author == author then [y] else []) + FollowersOf(s, author)
  {
    assert ([y] + s)[1..] == s;
  }

  /** The Follow rows that survive deleting user `u` (on_delete=CASCADE on both ends). */
  function FollowsAfterUserDelete(follows: seq<Follow>, u: UserId): (r: seq<Follow>)
    ensures forall f {:trigger f in r} :: f in r <==> f in follows && f.user != u && f.author != u
  {
    Filter(follows, (f: Follow) => f.user != u && f.author != u)
  }

  /** The cascade keeps the Follow constraints against the remaining users. */
  lemma {:induction false} UserDeleteKeepsFollowsValid(follows: seq<Follow>, userIds: set<UserId>, u: UserId)
    requires FollowsValid(follows, userIds)
    ensures FollowsValid(FollowsAfterUserDelete(follows, u), userIds - {u})
  {
    var r := FollowsAfterUserDelete(follows, u);
    FilterDistinct(follows, (f: Follow) => f.user != u && f.author != u);
    forall k | 0 <= k < |r| ensures r[k].user in userIds - {u} && r[k].author in userIds - {u} {
      assert r[k] in r;
      var j :| 0 <= j < |follows| && follows[j] == r[k];
    }
  }

  /** A duplicate-free selection of valid follows is valid. */
  lemma FollowsValidSubset(follows: seq<Follow>, sub: seq<Follow>, userIds: set<UserId>)
    requires FollowsValid(follows, userIds) && Distinct(sub)
    requires forall f :: f in sub ==> f in follows
    ensures FollowsValid(sub, userIds)
  {
    forall k | 0 <= k < |sub| ensures sub[k].user in userIds && sub[k].author in userIds {
      assert sub[k] in follows;
    }
  }
}
