/** The handler middleware: `userIdentity` checks the Authorization header,
    hands its token to the token service and records the principal in the
    request context; `getUserId` reads the principal back. HTTP plumbing is
    reduced to the context's key map and the error response, if any. */
module Middleware {
  import opened Options

  const UserCtx := "userId"
  const StatusUnauthorized := 401
  const StatusInternalServerError := 500

  /** A value stored in the request context (Go `interface{}`). */
  datatype Any = IntValue(n: int) | StringValue(s: string) | BoolValue(b: bool)

  /** `newErrorResponse`: the status and message the request is aborted with. */
  datatype ErrorResponse = ErrorResponse(status: int, message: string)

  /** The token service's answer: the user id, or the error's message. */
  datatype Token = Parsed(userId: int) | Invalid(message: string)

  /** The request after `userIdentity`: its context keys, and the error
      response when it was aborted. */
  datatype Gate = Gate(keys: map<string, Any>, aborted: Option<ErrorResponse>)

  /** `getUserId`'s `(int, error)` result; an error also writes its response. */
  datatype Principal = Principal(id: int, failure: Option<ErrorResponse>)

  /** The number of occurrences of `c` in `s`. */
  function Count(s: string, c: char): nat {
    if s == [] then 0 else (if s[0] == c then 1 else 0) + Count(s[1..], c)
  }

  /** Go `strings.Split` with a one-character separator: the pieces between
      separators, empty pieces included. */
  function Split(s: string, sep: char): (parts: seq<string>)
    ensures |parts| == Count(s, sep) + 1
    ensures forall k :: 0 <= k < |parts| ==> sep !in parts[k]
  {
    if s == [] then [""]
    else
      var rest := Split(s[1..], sep);
      if s[0] == sep then [""] + rest
      else
        assert sep !in rest[0];
        [[s[0]] + rest[0]] + rest[1..]
  }

  /** The pieces glued back together with the separator between them. */
  function Join(parts: seq<string>, sep: char): string
    requires |parts| >= 1
  {
    if |parts| == 1 then parts[0] else parts[0] + [sep] + Join(parts[1..], sep)
  }

  /** Splitting loses nothing: joining the pieces restores the header. */
  lemma {:induction false} SplitJoin(s: string, sep: char)
    ensures Join(Split(s, sep), sep) == s
  {
    if s != [] {
      var rest := Split(s[1..], sep);
      SplitJoin(s[1..], sep);
      if s[0] == sep {
        assert ([""] + rest)[1..] == rest;
        assert s == [sep] + s[1..];
      } else {
        var parts := [[s[0]] + rest[0]] + rest[1..];
        assert parts[1..] == rest[1..];
        if |rest| == 1 {
          assert s == [s[0]] + s[1..];
        } else {
          assert Join(rest, sep) == rest[0] + [sep] + Join(rest[1..], sep);
          assert s == [s[0]] + s[1..];
        }
      }
    }
  }

  lemma {:induction false} CountPositive(s: string, c: char, i: int)
    requires 0 <= i < |s| && s[i] == c
    ensures Count(s, c) >= 1
  {
    if i > 0 {
      CountPositive(s[1..], c, i - 1);
    }
  }

  lemma {:induction false} SplitWithoutSeparator(s: string, sep: char)
    requires Count(s, sep) == 0
    ensures Split(s, sep) == [s]
  {
    if s != [] {
      SplitWithoutSeparator(s[1..], sep);
      assert s == [s[0]] + s[1..];
    }
  }

  /** A header with exactly one separator, at `i`, splits into the text
      before it and the text after it. */
  lemma {:induction false} SplitAtOnlySeparator(s: string, sep: char, i: int)
    requires 0 <= i < |s| && s[i] == sep && Count(s, sep) == 1
    ensures Split(s, sep) == [s[..i], s[i + 1..]]
  {
    if i == 0 {
      SplitWithoutSeparator(s[1..], sep);
    } else {
      if s[0] == sep {
        CountPositive(s[1..], sep, i - 1);
        assert false;
      }
      SplitAtOnlySeparator(s[1..], sep, i - 1);
      assert [s[0]] + s[1..][..i - 1] == s[..i];
      assert s[1..][i..] == s[i + 1..];
    }
  }

  lemma SplitInTwo(s: string, sep: char)
    ensures forall i :: 0 <= i < |s| && s[i] == sep && Count(s, sep) == 1 ==> Split(s, sep) == [s[..i], s[i + 1..]]
  {
    forall i | 0 <= i < |s| && s[i] == sep && Count(s, sep) == 1
      ensures Split(s, sep) == [s[..i], s[i + 1..]]
    {
      SplitAtOnlySeparator(s, sep, i);
    }
  }

  /** The last step of userIdentity: store the parsed id under "userId", or
      refuse with the token service's message. */
  function Admit(keys: map<string, Any>, token: Token): Gate {
    match token
    case Parsed(n) => Gate(keys[UserCtx := IntValue(n)], None)
    case Invalid(m) => Gate(keys, Some(ErrorResponse(StatusUnauthorized, m)))
  }

  /** userIdentity: an empty header, or one that does not split into exactly
      two parts on " ", is refused as Unauthorized. Otherwise the text after
      the one space, possibly empty, goes to the token service; the scheme
      word before it is never looked at. A parsed id is stored under
      "userId"; a token error is refused as Unauthorized with the service's
      message. A refused request keeps its context as it was. */
  function UserIdentity(header: string, keys: map<string, Any>, parseToken: string -> Token): (g: Gate)
    ensures header == "" ==> g == Gate(keys, Some(ErrorResponse(StatusUnauthorized, "No authorization header")))
    ensures header != "" && Count(header, ' ') != 1 ==>
              g == Gate(keys, Some(ErrorResponse(StatusUnauthorized, "Invalid authorization header")))
    ensures forall i :: 0 <= i < |header| && header[i] == ' ' && Count(header, ' ') == 1 ==>
              g == Admit(keys, parseToken(header[i + 1..]))
    ensures g.aborted.Some? ==> g.keys == keys && g.aborted.value.status == StatusUnauthorized
  {
    if header == "" then Gate(keys, Some(ErrorResponse(StatusUnauthorized, "No authorization header")))
    else
      var headerParts := Split(header, ' ');
      if |headerParts| != 2 then Gate(keys, Some(ErrorResponse(StatusUnauthorized, "Invalid authorization header")))
      else
        SplitInTwo(header, ' ');
        Admit(keys, parseToken(headerParts[1]))
  }

  /** getUserId: the int stored under "userId". A missing key, or a value of
      another type, is an internal error with status 500 and id 0. */
  function GetUserId(keys: map<string, Any>): (r: Principal)
    ensures r.failure.None? <==> UserCtx in keys && keys[UserCtx].IntValue?
    ensures r.failure.None? ==> r.id == keys[UserCtx].n
    ensures UserCtx !in keys ==> r == Principal(0, Some(ErrorResponse(StatusInternalServerError, "User ID not found")))
    ensures UserCtx in keys && !keys[UserCtx].IntValue? ==>
              r == Principal(0, Some(ErrorResponse(StatusInternalServerError, "User ID is of invalid type")))
  {
    if UserCtx !in keys then Principal(0, Some(ErrorResponse(StatusInternalServerError, "User ID not found")))
    else match keys[UserCtx]
      case IntValue(n) => Principal(n, None)
      case _ => Principal(0, Some(ErrorResponse(StatusInternalServerError, "User ID is of invalid type")))
  }

  /** Round trip: after userIdentity lets a request through, getUserId
      returns the id the token service parsed from the header's token. */
  lemma IdentityThenUserId(header: string, keys: map<string, Any>, parseToken: string -> Token, i: int)
    requires 0 <= i < |header| && header[i] == ' '
    requires UserIdentity(header, keys, parseToken).aborted.None?
    ensures parseToken(header[i + 1..]).Parsed?
    ensures GetUserId(UserIdentity(header, keys, parseToken).keys) == Principal(parseToken(header[i + 1..]).userId, None)
  {
  }

  lemma {:induction false} CountAppend(a: string, b: string, c: char)
    ensures Count(a + b, c) == Count(a, c) + Count(b, c)
  {
    if a == [] {
      assert a + b == b;
    } else {
      assert (a + b)[1..] == a[1..] + b;
      CountAppend(a[1..], b, c);
    }
  }

  /** The scheme word is never inspected: any two space-free first words
      give the same outcome for the same token. */
  lemma SchemeIgnored(scheme: string, other: string, token: string, keys: map<string, Any>, parseToken: string -> Token)
    requires ' ' !in scheme && ' ' !in other
    ensures UserIdentity(scheme + " " + token, keys, parseToken) == UserIdentity(other + " " + token, keys, parseToken)
  {
    var h1 := scheme + " " + token;
    var h2 := other + " " + token;
    assert h1 == scheme + (" " + token) && h2 == other + (" " + token);
    CountAppend(scheme, " " + token, ' ');
    CountAppend(other, " " + token, ' ');
    CountAppend(" ", token, ' ');
    assert Count(" ", ' ') == 1;
    CountZero(scheme, ' ');
    CountZero(other, ' ');
    assert Count(h1, ' ') == Count(h2, ' ') == 1 + Count(token, ' ');
    assert h1[|scheme|] == ' ' && h1[|scheme| + 1..] == token;
    assert h2[|other|] == ' ' && h2[|other| + 1..] == token;
    assert h1 != "" && h2 != "";
  }

  lemma {:induction false} CountZero(s: string, c: char)
    requires c !in s
    ensures Count(s, c) == 0
  {
    if s != [] {
      assert forall x :: x in s[1..] ==> x in s;
      CountZero(s[1..], c);
    }
  }

  /** Splitting on every space keeps empty pieces: two spaces are refused,
      even when they read like "Bearer <token>". */
  lemma TwoSpacesRefused(keys: map<string, Any>, parseToken: string -> Token)
    ensures UserIdentity("a b c", keys, parseToken).aborted == Some(ErrorResponse(StatusUnauthorized, "Invalid authorization header"))
    ensures UserIdentity("Bearer  t", keys, parseToken).aborted == Some(ErrorResponse(StatusUnauthorized, "Invalid authorization header"))
  {
    CountAppend("a b", " c", ' ');
    CountPositive("a b", ' ', 1);
    CountPositive(" c", ' ', 0);
    assert "a b" + " c" == "a b c";
    CountAppend("Bearer ", " t", ' ');
    CountPositive("Bearer ", ' ', 6);
    CountPositive(" t", ' ', 0);
    assert "Bearer " + " t" == "Bearer  t";
  }

  /** A header without a space is refused. */
  lemma NoSpaceRefused(keys: map<string, Any>, parseToken: string -> Token)
    ensures UserIdentity("Bearer", keys, parseToken).aborted == Some(ErrorResponse(StatusUnauthorized, "Invalid authorization header"))
  {
    CountZero("Bearer", ' ');
  }

  /** "Bearer " passes the shape check and hands the empty token on. */
  lemma EmptyTokenPassed(keys: map<string, Any>, parseToken: string -> Token)
    ensures UserIdentity("Bearer ", keys, parseToken) == Admit(keys, parseToken(""))
  {
    var h := "Bearer ";
    CountAppend("Bearer", " ", ' ');
    CountZero("Bearer", ' ');
    assert "Bearer" + " " == h;
    assert h[6] == ' ' && h[7..] == "";
  }
}
