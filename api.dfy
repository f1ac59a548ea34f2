/** The directory fetch service (src/services/api.ts): the shaping of a fetch
    outcome into a user list, and the avatar URL template. The HTTP request
    itself is not modelled; its outcome is an input. */
module Api {
  import opened Wrappers
  import opened UserTypes

  /** What the `fetch` call and the `response.json()` call produced. */
  datatype FetchAttempt =
    | Rejected                                     // `fetch` itself threw
    | Answered(ok: bool, body: Option<seq<User>>)  // `body` is None when `response.json()` threw

  /** Why `fetchUsers` rejects. */
  datatype FetchError = StatusNotOk | Thrown

  /** The record as returned by the post-fetch map: `{...user, liked: false}`. */
  function Unliked(u: User): (r: User)
    ensures r.liked == Some(false) && !IsLiked(r) && SameExceptLiked(r, u)
  {
    u.(liked := Some(false))
  }

  /** The post-fetch `map`: every received record, in order, with `liked` set to false. */
  function MarkAllUnliked(received: seq<User>): (users: seq<User>)
    ensures |users| == |received|
    ensures forall i :: 0 <= i < |users| ==>
      users[i].liked == Some(false) && SameExceptLiked(users[i], received[i])
  {
    if received == [] then [] else [Unliked(received[0])] + MarkAllUnliked(received[1..])
  }

  /** `fetchUsers`: fails on a thrown error or a non-ok status, never yielding a partial list. */
  function FetchUsers(attempt: FetchAttempt): (r: Result<seq<User>, FetchError>)
    ensures r.Success? <==> attempt.Answered? && attempt.ok && attempt.body.Some?
    ensures attempt.Answered? && !attempt.ok ==> r == Failure(StatusNotOk)
    ensures attempt.Rejected? || (attempt.Answered? && attempt.ok && attempt.body.None?) ==>
      r == Failure(Thrown)
    ensures r.Success? ==>
      && |r.value| == |attempt.body.value|
      && forall i :: 0 <= i < |r.value| ==>
           r.value[i].liked == Some(false) && SameExceptLiked(r.value[i], attempt.body.value[i])
  {
    match attempt
    case Rejected => Failure(Thrown)
    case Answered(ok, body) =>
      if !ok then Failure(StatusNotOk)
      else if body.None? then Failure(Thrown)
      else Success(MarkAllUnliked(body.value))
  }

  /** After a successful fetch no record is liked, whatever the server sent. */
  lemma FetchedNoneLiked(attempt: FetchAttempt)
    requires FetchUsers(attempt).Success?
    ensures forall u :: u in FetchUsers(attempt).value ==> !IsLiked(u) && u.liked.Some?
  {
    var users := FetchUsers(attempt).value;
    forall u | u in users ensures !IsLiked(u) && u.liked.Some? {
      var i :| 0 <= i < |users| && users[i] == u;
    }
  }

  /** The post-fetch map commutes with splitting the received list: order is kept. */
  lemma {:induction false} MarkAllUnlikedConcat(a: seq<User>, b: seq<User>)
    ensures MarkAllUnliked(a + b) == MarkAllUnliked(a) + MarkAllUnliked(b)
  {
    if a == [] {
      assert a + b == b;
    } else {
      assert (a + b)[1..] == a[1..] + b;
      MarkAllUnlikedConcat(a[1..], b);
    }
  }

  /** Marking twice is the same as marking once. */
  lemma {:induction false} MarkAllUnlikedIdempotent(received: seq<User>)
    ensures MarkAllUnliked(MarkAllUnliked(received)) == MarkAllUnliked(received)
  {
    if received != [] {
      var once := MarkAllUnliked(received);
      assert once[1..] == MarkAllUnliked(received[1..]);
      MarkAllUnlikedIdempotent(received[1..]);
    }
  }

  const AvatarPrefix: string := "https://avatars.dicebear.com/v2/avataaars/"
  const AvatarSuffix: string := ".svg?options[mood][]=happy"

  /** `generateAvatarUrl`: the username embedded between a fixed prefix and suffix. */
  function AvatarUrl(username: string): (url: string)
    ensures |url| == |AvatarPrefix| + |username| + |AvatarSuffix|
    ensures url[..|AvatarPrefix|] == AvatarPrefix
    ensures url[|url| - |AvatarSuffix|..] == AvatarSuffix
    ensures url[|AvatarPrefix|..|url| - |AvatarSuffix|] == username
  {
    AvatarPrefix + username + AvatarSuffix
  }

  /** Reads the username back out of an avatar URL, if the URL has the template's shape. */
  function UsernameOf(url: string): (r: Option<string>)
    ensures r.Some? ==> AvatarUrl(r.value) == url
  {
    if |url| >= |AvatarPrefix| + |AvatarSuffix|
       && url[..|AvatarPrefix|] == AvatarPrefix
       && url[|url| - |AvatarSuffix|..] == AvatarSuffix
    then
      assert url == url[..|AvatarPrefix|] + url[|AvatarPrefix|..|url| - |AvatarSuffix|]
                    + url[|url| - |AvatarSuffix|..];
      Some(url[|AvatarPrefix|..|url| - |AvatarSuffix|])
    else None
  }

  /** Reading the username back recovers it. */
  lemma AvatarUrlRoundTrip(username: string)
    ensures UsernameOf(AvatarUrl(username)) == Some(username)
  {
  }

  /** Distinct usernames get distinct avatar URLs. */
  lemma AvatarUrlInjective(a: string, b: string)
    requires AvatarUrl(a) == AvatarUrl(b)
    ensures a == b
  {
    AvatarUrlRoundTrip(a);
    AvatarUrlRoundTrip(b);
  }
}
