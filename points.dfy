/** The points endpoint: a store that maps a wallet address to that player's
    record, and the handler that answers GET (read the balance) and POST
    (credit points, maybe raise the high score) behind a token check. The
    token check and the database are abstracted: the decoded token is part
    of the request, and the collection is a map held by the store. */
module Points {
  import opened Wrappers

  /** What a successful token check yields: the claims, of which only the
      wallet address is used. */
  datatype Claims = Claims(walletAddress: Option<string>)

  /** A field of the JSON body as the handler tests it: a number, or a value
      of any other type. */
  datatype JsValue = Number(n: int) | NotNumber

  /** A request: its method, the decoded token (None when the check fails),
      and the two body fields. An absent score is None. */
  datatype Request = Request(verb: string, token: Option<Claims>, points: JsValue, score: Option<int>)

  /** One stored player: points, best score and the time of the last credit. */
  datatype UserRecord = UserRecord(points: int, highScore: int, lastPlayed: int)

  datatype Body = Balance(points: int, highScore: int) | Failure(error: string)

  /** The status code, the JSON body and the Allow header (empty when the
      handler does not set it). */
  datatype Response = Response(status: int, body: Body, allow: seq<string>)

  const Unauthorized := Response(401, Failure("Access token required"), [])
  const BadPoints := Response(400, Failure("Points must be a non-negative number"), [])
  const NotFound := Response(404, Failure("User not found"), [])
  const NotAllowed := Response(405, Failure("Method not allowed"), ["GET", "POST"])

  /** A JavaScript value is truthy unless it is absent or the number 0. */
  predicate Truthy(v: Option<int>)
    ensures !Truthy(v) <==> v == None || v == Some(0)
  {
    v.Some? && v.value != 0
  }

  /** The wallet the request acts for: absent when there is no decoded token
      or its address is missing or empty. */
  function Wallet(token: Option<Claims>): (w: Option<string>)
    ensures w.Some? <==> token.Some? && TruthyText(token.value.walletAddress)
    ensures w.Some? ==> Some(w.value) == token.value.walletAddress
  {
    if token.None? then None
    else match token.value.walletAddress
      case None => None
      case Some(address) => if address == "" then None else Some(address)
  }

  /** A string is truthy unless it is absent or empty. */
  predicate TruthyText(s: Option<string>) {
    s.Some? && |s.value| > 0
  }

  /** The points field is accepted when it is a number and not negative. */
  predicate ValidPoints(p: JsValue)
    ensures !ValidPoints(p) <==> p == NotNumber || p.n < 0
  {
    p.Number? && p.n >= 0
  }

  function Max(a: int, b: int): int {
    if a >= b then a else b
  }

  /** A successful POST applied to one record: p is added to the points, a
      truthy score replaces the high score only when it beats it, and the
      play time is stamped. */
  function Credit(user: UserRecord, p: int, score: Option<int>, now: int): (r: UserRecord)
    requires p >= 0
    ensures r.points >= user.points
    ensures r.points - user.points == p
    ensures Truthy(score) ==> r.highScore == Max(user.highScore, score.value)
    ensures !Truthy(score) ==> r.highScore == user.highScore
    ensures r.highScore >= user.highScore
    ensures r.lastPlayed == now
  {
    var highScore := if Truthy(score) && score.value > user.highScore then score.value else user.highScore;
    UserRecord(user.points + p, highScore, now)
  }

  /** Points and high score are never negative: the schema starts both at 0
      and the handler only adds a non-negative amount or raises the score. */
  predicate RecordValid(user: UserRecord) {
    user.points >= 0 && user.highScore >= 0
  }

  lemma CreditKeepsRecordValid(user: UserRecord, p: int, score: Option<int>, now: int)
    requires RecordValid(user) && p >= 0
    ensures RecordValid(Credit(user, p, score, now))
    ensures Truthy(score) ==> Credit(user, p, score, now).highScore >= score.value
  {
  }

  /** One accepted POST body. */
  datatype Post = Post(points: nat, score: Option<int>)

  /** A record after a series of accepted POSTs, oldest first, all at time
      now. */
  function Replay(user: UserRecord, posts: seq<Post>, now: int): UserRecord
    decreases |posts|
  {
    if posts == [] then user
    else Replay(Credit(user, posts[0].points, posts[0].score, now), posts[1..], now)
  }

  function TotalPoints(posts: seq<Post>): int {
    if posts == [] then 0 else posts[0].points + TotalPoints(posts[1..])
  }

  /** After any series of POSTs the points are the starting points plus every
      credited amount, and the high score is the best of the starting high
      score and every truthy score sent: at least each of them, and equal to
      one of them. */
  lemma {:induction false} ReplayTotals(user: UserRecord, posts: seq<Post>, now: int)
    ensures Replay(user, posts, now).points == user.points + TotalPoints(posts)
    ensures Replay(user, posts, now).highScore >= user.highScore
    ensures forall i :: 0 <= i < |posts| && Truthy(posts[i].score) ==>
      Replay(user, posts, now).highScore >= posts[i].score.value
    ensures || Replay(user, posts, now).highScore == user.highScore
            || exists i :: 0 <= i < |posts| && Truthy(posts[i].score) &&
                 Replay(user, posts, now).highScore == posts[i].score.value
    decreases |posts|
  {
    if posts != [] {
      var next := Credit(user, posts[0].points, posts[0].score, now);
      var rest := posts[1..];
      ReplayTotals(next, rest, now);
      var final := Replay(user, posts, now);
      assert final == Replay(next, rest, now);
      forall i | 0 <= i < |posts| && Truthy(posts[i].score)
        ensures final.highScore >= posts[i].score.value
      {
        if i > 0 {
          assert posts[i] == rest[i - 1];
        }
      }
      if final.highScore != next.highScore {
        var j :| 0 <= j < |rest| && Truthy(rest[j].score) && final.highScore == rest[j].score.value;
        assert posts[j + 1] == rest[j];
      } else if next.highScore != user.highScore {
        assert Truthy(posts[0].score) && final.highScore == posts[0].score.value;
      }
    }
  }

  /** The user collection behind the endpoint. */
  class PointsStore {
    var users: map<string, UserRecord>

    ghost predicate Valid()
      reads this
    {
      forall address :: address in users ==> RecordValid(users[address])
    }

    constructor (initial: map<string, UserRecord>)
      requires forall address :: address in initial ==> RecordValid(initial[address])
      ensures Valid() && users == initial
    {
      users := initial;
    }

    /** handler: reject a request without a wallet (401); on GET answer the
        stored balance or 404; on POST reject bad points (400) before the
        lookup, answer 404 for an unknown wallet, else credit the record and
        answer its new balance; any other method gets 405 with an Allow
        header. Only a successful POST changes the store, and only the
        caller's record. */
    method Handle(req: Request, now: int) returns (resp: Response)
      requires Valid()
      modifies this
      ensures Valid()
      ensures users.Keys == old(users).Keys
      ensures forall address :: address in old(users) ==>
        && users[address].points >= old(users)[address].points
        && users[address].highScore >= old(users)[address].highScore
      ensures Wallet(req.token).None? ==> resp == Unauthorized && users == old(users)
      ensures Wallet(req.token).Some? ==>
        var address := Wallet(req.token).value;
        if req.verb == "GET" then
          && users == old(users)
          && resp == if address in old(users)
                     then Response(200, Balance(old(users)[address].points, old(users)[address].highScore), [])
                     else NotFound
        else if req.verb == "POST" then
          if !ValidPoints(req.points) then resp == BadPoints && users == old(users)
          else if address !in old(users) then resp == NotFound && users == old(users)
          else
            var credited := Credit(old(users)[address], req.points.n, req.score, now);
            && users == old(users)[address := credited]
            && resp == Response(200, Balance(credited.points, credited.highScore), [])
        else
          resp == NotAllowed && users == old(users)
    {
      var wallet := Wallet(req.token);
      if wallet.None? {
        return Unauthorized;
      }
      var address := wallet.value;
      if req.verb == "GET" {
        if address !in users {
          return NotFound;
        }
        var user := users[address];
        resp := Response(200, Balance(user.points, user.highScore), []);
      } else if req.verb == "POST" {
        if !req.points.Number? || req.points.n < 0 {
          return BadPoints;
        }
        if address !in users {
          return NotFound;
        }
        var user := users[address];
        var highScore := user.highScore;
        if Truthy(req.score) && req.score.value > highScore {
          highScore := req.score.value;
        }
        user := UserRecord(user.points + req.points.n, highScore, now);
        CreditKeepsRecordValid(users[address], req.points.n, req.score, now);
        users := users[address := user];
        resp := Response(200, Balance(user.points, user.highScore), []);
      } else {
        resp := NotAllowed;
      }
    }
  }
}
