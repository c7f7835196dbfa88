/** The request interceptor that guards every API route: preflight requests
    and allow-listed routes pass; everything else needs a `Bearer` token whose
    claims the token verifier accepts, and those claims become the request's
    user. */
module Auth {
  import opened Wrappers
  import opened Text
  import opened Values

  datatype Request = Request(httpMethod: string, path: string, authorization: Option<string>)

  /** `Pass(user)` lets the request through (with `g.user` set when a token was
      checked); `Unauthorized` is the 401 response with its error text. */
  datatype Decision = Pass(user: Option<PyValue>) | Unauthorized(message: string)

  const BearerPrefix: string := "Bearer "

  /** Python's `s.split(sep, 1)`: the text before the first `sep` and, when
      there is one, the text after it. */
  function SplitOnce(s: string, sep: char): (r: (string, Option<string>))
    ensures r.1.None? <==> sep !in s
    ensures sep !in r.0
    ensures r.1.None? ==> r.0 == s
    ensures r.1.Some? ==> s == r.0 + [sep] + r.1.value
  {
    if |s| == 0 then ("", None)
    else if s[0] == sep then ("", Some(s[1..]))
    else
      var (before, after) := SplitOnce(s[1..], sep);
      ([s[0]] + before, after)
  }

  /** The token the interceptor hands to the verifier: the part after the
      first space, stripped.  For a header starting with `Bearer ` that is
      the rest of the header after the prefix. */
  function TokenOf(header: string): (t: string)
    requires StartsWith(header, BearerPrefix)
    ensures t == Strip(header[|BearerPrefix|..])
  {
    var (before, after) := SplitOnce(header, ' ');
    FirstSpaceOfBearer(header, before, after);
    Strip(after.value)
  }

  lemma FirstSpaceOfBearer(header: string, before: string, after: Option<string>)
    requires StartsWith(header, BearerPrefix)
    requires (before, after) == SplitOnce(header, ' ')
    ensures after == Some(header[|BearerPrefix|..])
  {
    BearerParts(header);
    NoSpaceInBearer();
    SplitOnceAtFirst("Bearer", ' ', header[|BearerPrefix|..]);
  }

  lemma BearerParts(header: string)
    requires StartsWith(header, BearerPrefix)
    ensures header == "Bearer" + [' '] + header[|BearerPrefix|..]
  {
    assert header[..|BearerPrefix|] == "Bearer" + [' '];
  }

  lemma NoSpaceInBearer()
    ensures ' ' !in "Bearer"
  {
    var b := "Bearer";
    assert forall i :: 0 <= i < |b| ==> b[i] != ' ';
  }

  /** Splitting at the first separator finds the one after a separator-free prefix. */
  lemma {:induction false} SplitOnceAtFirst(p: string, sep: char, rest: string)
    requires sep !in p
    ensures SplitOnce(p + [sep] + rest, sep) == (p, Some(rest))
  {
    if |p| == 0 {
      assert p + [sep] + rest == [sep] + rest;
    } else {
      SplitOnceAtFirst(p[1..], sep, rest);
      var s := p + [sep] + rest;
      assert s[0] == p[0] && s[0] != sep;
      assert s[1..] == p[1..] + [sep] + rest;
      assert [p[0]] + p[1..] == p;
    }
  }

  /** The interceptor.  `verify` is the token verifier: it yields the decoded
      claims, or `None` when the token does not check out. */
  function Intercept(req: Request, publicPaths: set<string>, publicPrefixes: seq<string>,
                     verify: string -> PyValue): (d: Decision)
    ensures d.Unauthorized? ==> d.message == "Unauthorized" || d.message == "Invalid or expired token"
  {
    if req.httpMethod == "OPTIONS" then Pass(None)
    else if req.path in publicPaths then Pass(None)
    else if exists i :: 0 <= i < |publicPrefixes| && StartsWith(req.path, publicPrefixes[i]) then Pass(None)
    else
      var header := req.authorization.GetOr("");
      if !StartsWith(header, BearerPrefix) then Unauthorized("Unauthorized")
      else
        var token := TokenOf(header);
        if token == "" then Unauthorized("Unauthorized")
        else
          var claims := verify(token);
          if !Truthy(claims) then Unauthorized("Invalid or expired token")
          else Pass(Some(claims))
  }

  /** A route is open when it is a preflight, an allow-listed path or under an
      allow-listed prefix. */
  predicate IsOpen(req: Request, publicPaths: set<string>, publicPrefixes: seq<string>) {
    req.httpMethod == "OPTIONS" || req.path in publicPaths ||
    exists i :: 0 <= i < |publicPrefixes| && StartsWith(req.path, publicPrefixes[i])
  }

  /** A request passes exactly when its route is open, or its header is
      `Bearer ` followed by a non-blank token whose claims are truthy; a
      request that passes on a token carries exactly those claims as its user,
      and one on an open route carries none. */
  lemma InterceptDecision(req: Request, publicPaths: set<string>, publicPrefixes: seq<string>,
                          verify: string -> PyValue)
    ensures var d := Intercept(req, publicPaths, publicPrefixes, verify);
      var header := req.authorization.GetOr("");
      (d.Pass? <==>
        IsOpen(req, publicPaths, publicPrefixes) ||
        (StartsWith(header, BearerPrefix) &&
         Strip(header[|BearerPrefix|..]) != "" &&
         Truthy(verify(Strip(header[|BearerPrefix|..]))))) &&
      (IsOpen(req, publicPaths, publicPrefixes) ==> d == Pass(None)) &&
      (d.Pass? && !IsOpen(req, publicPaths, publicPrefixes) ==>
        d.user == Some(verify(Strip(header[|BearerPrefix|..]))))
  {
  }
}
