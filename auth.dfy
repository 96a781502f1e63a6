/** The route guards of server/middleware/auth.js: `protect` reads a Bearer token
    from the Authorization header, verifies it and attaches the user to the request;
    `authorize(...roles)` lets the request through only for the listed roles. Token
    verification (`jwt.verify`) is a parameter: a function from a token to the user id
    in its payload, or None when verification throws. */
module Auth {
  import opened Common

  /** The stored user as the guards see it. */
  datatype User = User(username: string, role: string)

  /** What a guard does with the request. */
  datatype Outcome =
    | Next           // calls `next()`
    | Unauthorized   // 401 "Not authorized to access this route"
    | Forbidden      // 403 "User role ... is not authorized to access this route"
    | Thrown         // reading `req.user.role` with no user throws; Express answers 500

  // ---------------------------------------------------------------------------
  // `String.prototype.split(' ')` and its inverse
  // ---------------------------------------------------------------------------

  /** `s.split(sep)`: the pieces between the separators, empty pieces included. */
  function Split(s: string, sep: char): (r: seq<string>)
    ensures |r| >= 1
    decreases |s|
  {
    if s == [] then [""]
    else if s[0] == sep then [""] + Split(s[1..], sep)
    else
      var rest := Split(s[1..], sep);
      [[s[0]] + rest[0]] + rest[1..]
  }

  /** `pieces.join(sep)`. */
  function Join(pieces: seq<string>, sep: char): string
    requires |pieces| >= 1
    decreases |pieces|
  {
    if |pieces| == 1 then pieces[0] else pieces[0] + [sep] + Join(pieces[1..], sep)
  }

  /** No piece that `split` returns contains the separator. */
  lemma {:induction false} SplitPiecesLackSeparator(s: string, sep: char)
    ensures forall i :: 0 <= i < |Split(s, sep)| ==> sep !in Split(s, sep)[i]
    decreases |s|
  {
    if s != [] {
      SplitPiecesLackSeparator(s[1..], sep);
      var rest := Split(s[1..], sep);
      if s[0] != sep {
        assert sep !in rest[0];
        assert Split(s, sep)[0] == [s[0]] + rest[0];
        forall i | 1 <= i < |Split(s, sep)|
          ensures sep !in Split(s, sep)[i]
        {
          assert Split(s, sep)[i] == rest[i];
        }
      }
    }
  }

  /** Joining the pieces with the separator gives back the string. */
  lemma {:induction false} JoinSplit(s: string, sep: char)
    ensures Join(Split(s, sep), sep) == s
    decreases |s|
  {
    if s != [] {
      JoinSplit(s[1..], sep);
      var rest := Split(s[1..], sep);
      assert Split(s, sep) == if s[0] == sep then [""] + rest else [[s[0]] + rest[0]] + rest[1..];
      JoinAfterChar(s[0], rest, sep);
      assert [s[0]] + s[1..] == s;
    }
  }

  /** One step of `split`, as `join` sees it: the character reappears in front. */
  lemma JoinAfterChar(c: char, rest: seq<string>, sep: char)
    requires |rest| >= 1
    ensures Join(if c == sep then [""] + rest else [[c] + rest[0]] + rest[1..], sep) == [c] + Join(rest, sep)
  {
    if c == sep {
      assert ([""] + rest)[1..] == rest;
    } else {
      JoinConsFirst(rest, c, sep);
    }
  }

  /** A character put in front of the first piece ends up in front of the join. */
  lemma JoinConsFirst(pieces: seq<string>, c: char, sep: char)
    requires |pieces| >= 1
    ensures Join([[c] + pieces[0]] + pieces[1..], sep) == [c] + Join(pieces, sep)
  {
    var longer := [[c] + pieces[0]] + pieces[1..];
    if |pieces| > 1 {
      assert longer[1..] == pieces[1..];
    }
  }

  /** Splitting a join of separator-free pieces gives back the pieces. */
  lemma {:induction false} SplitJoin(pieces: seq<string>, sep: char)
    requires |pieces| >= 1
    requires forall i :: 0 <= i < |pieces| ==> sep !in pieces[i]
    ensures Split(Join(pieces, sep), sep) == pieces
    decreases |pieces|, |pieces[0]|
  {
    if |pieces| == 1 {
      SplitNoSeparator(pieces[0], sep);
    } else if pieces[0] == [] {
      var tail := Join(pieces[1..], sep);
      assert Join(pieces, sep) == [sep] + tail;
      assert ([sep] + tail)[1..] == tail;
      SplitJoin(pieces[1..], sep);
      assert pieces == [""] + pieces[1..];
    } else {
      var c := pieces[0][0];
      var shorter := pieces[0 := pieces[0][1..]];
      DropFirstChar(pieces, sep, shorter);
      SplitJoin(shorter, sep);
      assert ([c] + Join(shorter, sep))[1..] == Join(shorter, sep);
      assert pieces[0] == [c] + shorter[0];
    }
  }

  /** Taking the first character off the first piece: the pieces stay free of the
      separator, and the join loses exactly that character. */
  lemma DropFirstChar(pieces: seq<string>, sep: char, shorter: seq<string>)
    requires |pieces| >= 1 && pieces[0] != [] && shorter == pieces[0 := pieces[0][1..]]
    requires forall i :: 0 <= i < |pieces| ==> sep !in pieces[i]
    ensures pieces[0][0] != sep
    ensures forall i :: 0 <= i < |shorter| ==> sep !in shorter[i]
    ensures Join(pieces, sep) == [pieces[0][0]] + Join(shorter, sep)
  {
    assert pieces[0][0] in pieces[0];
    forall i | 0 <= i < |shorter|
      ensures sep !in shorter[i]
    {
      if i == 0 {
        assert forall k :: 0 <= k < |pieces[0][1..]| ==> pieces[0][1..][k] == pieces[0][k + 1];
      }
    }
    assert pieces[0] == [pieces[0][0]] + shorter[0];
    assert pieces == [[pieces[0][0]] + shorter[0]] + shorter[1..];
    JoinConsFirst(shorter, pieces[0][0], sep);
  }

  /** A string without the separator is a single piece. */
  lemma {:induction false} SplitNoSeparator(s: string, sep: char)
    requires sep !in s
    ensures Split(s, sep) == [s]
    decreases |s|
  {
    if s != [] {
      assert sep !in s[1..] by {
        forall k | 0 <= k < |s[1..]| ensures s[1..][k] != sep {
          assert s[1..][k] == s[k + 1];
        }
      }
      SplitNoSeparator(s[1..], sep);
      assert [s[0]] + s[1..] == s;
    }
  }

  // ---------------------------------------------------------------------------
  // protect
  // ---------------------------------------------------------------------------

  /** `startsWith(prefix)`. */
  predicate StartsWith(s: string, prefix: string)
  {
    |prefix| <= |s| && s[..|prefix|] == prefix
  }

  /** The token `protect` reads: the second space-separated word of a header that
      starts with "Bearer"; an absent or empty word is no token. */
  function ExtractToken(authorization: Option<string>): (token: Option<string>)
    ensures authorization.None? || !StartsWith(authorization.value, "Bearer") ==> token.None?
    ensures token.Some? ==> token.value != "" && ' ' !in token.value
  {
    if authorization.None? || !StartsWith(authorization.value, "Bearer") then None
    else
      var words := Split(authorization.value, ' ');
      SplitPiecesLackSeparator(authorization.value, ' ');
      if |words| < 2 || words[1] == "" then None else Some(words[1])
  }

  /** A header whose first word starts with "Bearer" (`Bearer` itself, or `BearerX`,
      which `startsWith` also accepts) followed by a token and optionally more words
      yields exactly that token. */
  lemma BearerToken(first: string, token: string, rest: seq<string>)
    requires StartsWith(first, "Bearer") && ' ' !in first
    requires token != "" && ' ' !in token
    requires forall i :: 0 <= i < |rest| ==> ' ' !in rest[i]
    ensures ExtractToken(Some(Join([first, token] + rest, ' '))) == Some(token)
  {
    var pieces := [first, token] + rest;
    WordsOfJoin(pieces, ' ');
    BearerPrefix(Join(pieces, ' '), pieces);
    SecondWordIsToken(Join(pieces, ' '));
  }

  /** Words joined with single spaces split back into those words. */
  lemma WordsOfJoin(pieces: seq<string>, sep: char)
    requires |pieces| >= 2 && sep !in pieces[0] && sep !in pieces[1]
    requires forall i :: 0 <= i < |pieces[2..]| ==> sep !in pieces[2..][i]
    ensures Split(Join(pieces, sep), sep) == pieces
  {
    forall i | 0 <= i < |pieces|
      ensures sep !in pieces[i]
    {
      if i >= 2 {
        assert pieces[i] == pieces[2..][i - 2];
      }
    }
    SplitJoin(pieces, sep);
  }

  lemma BearerPrefix(h: string, pieces: seq<string>)
    requires |pieces| >= 2 && StartsWith(pieces[0], "Bearer") && h == Join(pieces, ' ')
    ensures StartsWith(h, "Bearer")
  {
    var tail := [' '] + Join(pieces[1..], ' ');
    assert h == pieces[0] + [' '] + Join(pieces[1..], ' ');
    assert h == pieces[0] + tail;
    PrefixOfConcat(pieces[0], tail, "Bearer");
  }

  lemma SecondWordIsToken(authorization: string)
    requires StartsWith(authorization, "Bearer")
    requires |Split(authorization, ' ')| >= 2 && Split(authorization, ' ')[1] != ""
    ensures ExtractToken(Some(authorization)) == Some(Split(authorization, ' ')[1])
  {
  }

  lemma PrefixOfConcat(a: string, b: string, prefix: string)
    requires StartsWith(a, prefix)
    ensures StartsWith(a + b, prefix)
  {
    assert (a + b)[..|prefix|] == a[..|prefix|];
  }

  /** Conversely, a token is only ever the second word of a header that starts with
      "Bearer" (the first word need only start with it: `BearerX t` also passes). */
  lemma TokenIsSecondWord(authorization: string)
    requires ExtractToken(Some(authorization)).Some?
    ensures StartsWith(authorization, "Bearer")
    ensures var words := Split(authorization, ' ');
      |words| >= 2 && words[1] == ExtractToken(Some(authorization)).value && Join(words, ' ') == authorization
  {
    JoinSplit(authorization, ' ');
  }

  /** `protect`'s decision: 401 without a token or when verification fails;
      otherwise the request proceeds with the user the payload names, which may be
      missing (`findById` returns null and `next()` is still called). */
  function Protected(authorization: Option<string>, verify: string -> Option<Id>, users: map<Id, User>)
    : (r: (Outcome, Option<User>))
    ensures r.0 == Unauthorized <==> ExtractToken(authorization).None? || verify(ExtractToken(authorization).value).None?
    ensures r.0 == Next <==> r.0 != Unauthorized
    ensures r.0 == Next ==> r.1 == (var id := verify(ExtractToken(authorization).value).value;
                                   if id in users then Some(users[id]) else None)
    ensures r.0 == Unauthorized ==> r.1.None?
  {
    match ExtractToken(authorization)
    case None => (Unauthorized, None)
    case Some(token) =>
      match verify(token)
      case None => (Unauthorized, None)
      case Some(id) => (Next, if id in users then Some(users[id]) else None)
  }

  /** The request as the guards see it; `protect` assigns `user`. */
  class Request {
    const authorization: Option<string>
    var user: Option<User>

    constructor (authorization: Option<string>)
      ensures this.authorization == authorization && user.None?
    {
      this.authorization := authorization;
      user := None;
    }

    /** `protect`: on success assigns `req.user` and calls `next()`; on failure
        answers 401 and leaves the request as it was. */
    method Protect(verify: string -> Option<Id>, users: map<Id, User>) returns (outcome: Outcome)
      modifies this
      ensures outcome == Protected(authorization, verify, users).0
      ensures outcome == Next ==> user == Protected(authorization, verify, users).1
      ensures outcome != Next ==> user == old(user)
    {
      var token: Option<string> := None;
      if authorization.Some? && StartsWith(authorization.value, "Bearer") {
        var words := Split(authorization.value, ' ');
        if |words| >= 2 {
          token := Some(words[1]);
        }
      }
      if token.None? || token.value == "" {
        return Unauthorized;
      }
      var decoded := verify(token.value);
      if decoded.None? {
        return Unauthorized;
      }
      user := if decoded.value in users then Some(users[decoded.value]) else None;
      return Next;
    }
  }

  // ---------------------------------------------------------------------------
  // authorize
  // ---------------------------------------------------------------------------

  /** `authorize(...roles)` applied to the request's user. */
  function Authorize(roles: seq<string>, user: Option<User>): (r: Outcome)
    ensures r in {Next, Forbidden, Thrown}
  {
    if user.None? then Thrown
    else if user.value.role !in roles then Forbidden
    else Next
  }

  /** A present user is refused with 403 exactly when the role is not listed, and
      let through exactly when it is. */
  lemma AuthorizeByRole(roles: seq<string>, user: User)
    ensures Authorize(roles, Some(user)) == Forbidden <==> user.role !in roles
    ensures Authorize(roles, Some(user)) == Next <==> user.role in roles
  {
  }

  /** A route guarded by `protect` then `authorize(...roles)` reaches its handler
      exactly when the token verifies, names a stored user, and that user's role is
      listed. */
  lemma GuardedRoute(authorization: Option<string>, verify: string -> Option<Id>, users: map<Id, User>, roles: seq<string>)
    ensures var (p, user) := Protected(authorization, verify, users);
      (p == Next && Authorize(roles, user) == Next)
      <==> (&& ExtractToken(authorization).Some?
            && verify(ExtractToken(authorization).value).Some?
            && verify(ExtractToken(authorization).value).value in users
            && users[verify(ExtractToken(authorization).value).value].role in roles)
  {
  }
}
