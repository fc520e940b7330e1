/**
 * `get_current_student`: pick the bearer token (the Authorization header
 * first, else the `access_token` cookie), decode it, read its subject as a
 * student id and look that student up. Every failure is an HTTP 401 with its
 * own detail. Token decoding is the parameter `decode`.
 */
module Dependencies {
  import opened Outcomes
  import opened Text
  import opened Models
  import Auth

  /** What `decode_token` returns for a token it accepts. */
  datatype TokenData = TokenData(sub: Option<string>, exp: Option<int>)

  datatype CredentialError = NotAuthenticated | CouldNotValidate | InvalidSubject | UserNotFound
  {
    function StatusCode(): int { 401 }

    function Detail(): string
    {
      match this
      case NotAuthenticated => "Not authenticated"
      case CouldNotValidate => "Could not validate credentials"
      case InvalidSubject => "Invalid token subject"
      case UserNotFound => "User not found"
    }
  }

  /** Python truthiness of an optional string: present and non-empty. */
  predicate Truthy(s: Option<string>)
  {
    s.Some? && s.value != ""
  }

  /** The cookie starts with "bearer " in any mix of upper and lower case. */
  predicate HasBearerPrefix(cookie: string)
  {
    "bearer " <= Lower(cookie)
  }

  /** `cookie.split(" ", 1)[1]` of a "bearer " cookie is the text after its seventh character. */
  lemma BearerRest(cookie: string)
    requires HasBearerPrefix(cookie)
    ensures ' ' in cookie && AfterFirst(cookie, ' ') == cookie[7..]
  {
    var low := Lower(cookie);
    assert low[6] == ' ' && cookie[6] == ' ';
    assert cookie[6] in cookie;
    forall i | 0 <= i < 6 ensures cookie[i] != ' ' {
      assert low[i] == "bearer "[i];
    }
  }

  /**
   * The token `get_current_student` goes on with, chosen between the token
   * it is given and the `access_token` cookie: a non-empty given token as is;
   * otherwise a non-empty cookie, stripped, minus a leading "bearer " in any
   * case; otherwise the given value unchanged.
   */
  function SelectToken(header: Option<string>, cookie: Option<string>): (r: Option<string>)
    ensures Truthy(header) ==> r == header
    ensures !Truthy(header) && Truthy(cookie) && HasBearerPrefix(cookie.value) ==>
              r == Some(Strip(cookie.value[7..]))
    ensures !Truthy(header) && Truthy(cookie) && !HasBearerPrefix(cookie.value) ==>
              r == Some(Strip(cookie.value))
    ensures !Truthy(header) && !Truthy(cookie) ==> r == header
  {
    if Truthy(header) then header
    else if Truthy(cookie) then
      if HasBearerPrefix(cookie.value) then
        BearerRest(cookie.value);
        Some(Strip(AfterFirst(cookie.value, ' ')))
      else Some(Strip(cookie.value))
    else header
  }

  /** The `sub` claim of a decoded token, `None` when decoding failed or there is none. */
  function Subject(data: Option<TokenData>): Option<string>
  {
    if data.None? then None else data.value.sub
  }

  /** What the request's token claims: nothing readable, a subject that is no integer, or a student id. */
  datatype Claimed = NoToken | NoSubject | BadSubject | StudentId(id: int)

  /** The claim of the chosen token, read through `decode` and Python's `int()`. */
  function Claim(header: Option<string>, cookie: Option<string>, decode: string -> Option<TokenData>): Claimed
  {
    var token := SelectToken(header, cookie);
    if !Truthy(token) then NoToken
    else
      var sub := Subject(decode(token.value));
      if sub.None? then NoSubject
      else if ParseInt(sub.value).None? then BadSubject
      else StudentId(ParseInt(sub.value).value)
  }

  /** `get_current_student` over the request's header token and cookie and the students table. */
  function GetCurrentStudent(header: Option<string>, cookie: Option<string>,
                             decode: string -> Option<TokenData>, students: map<int, Student>)
    : (r: Result<Student, CredentialError>)
    ensures r == Err(NotAuthenticated) <==> !Truthy(SelectToken(header, cookie))
    ensures r == Err(CouldNotValidate) <==> Claim(header, cookie, decode) == NoSubject
    ensures r == Err(InvalidSubject) <==> Claim(header, cookie, decode) == BadSubject
    ensures r == Err(UserNotFound) <==>
              Claim(header, cookie, decode).StudentId? && Claim(header, cookie, decode).id !in students
    ensures r.Ok? <==> Claim(header, cookie, decode).StudentId? && Claim(header, cookie, decode).id in students
    ensures r.Ok? ==> r.value == students[Claim(header, cookie, decode).id]
  {
    var token := SelectToken(header, cookie);
    if !Truthy(token) then Err(NotAuthenticated)
    else
      var data := decode(token.value);
      if data.None? || data.value.sub.None? then Err(CouldNotValidate)
      else
        match ParseInt(data.value.sub.value)
        case None => Err(InvalidSubject)
        case Some(id) => if id !in students then Err(UserNotFound) else Ok(students[id])
  }

  /** A cookie that is "bearer " followed only by whitespace leaves no token at all. */
  lemma BareBearerCookieIsNotAuthenticated(header: Option<string>, cookie: string,
                                           decode: string -> Option<TokenData>, students: map<int, Student>)
    requires !Truthy(header)
    requires HasBearerPrefix(cookie) && forall i :: 7 <= i < |cookie| ==> IsSpace(cookie[i])
    ensures GetCurrentStudent(header, Some(cookie), decode, students) == Err(NotAuthenticated)
  {
    var rest := cookie[7..];
    assert forall i :: 0 <= i < |rest| ==> IsSpace(rest[i]) by {
      forall i | 0 <= i < |rest| ensures IsSpace(rest[i]) {
        assert rest[i] == cookie[7 + i];
      }
    }
  }

  /**
   * A subject of more digits than `int()` reads is an invalid subject, even
   * when a student with that id exists.
   */
  lemma OverLongSubjectIsInvalid(token: string, cookie: Option<string>, sub: string,
                                 decode: string -> Option<TokenData>, students: map<int, Student>)
    requires token != "" && Subject(decode(token)) == Some(sub)
    requires IsDigitPart(sub) && DigitCount(sub) > MaxStrDigits
    ensures GetCurrentStudent(Some(token), cookie, decode, students) == Err(InvalidSubject)
  {
    ParseOverLongRefused(sub);
  }

  /**
   * A token issued by a successful login, sent back in the Authorization
   * header, resolves to the student who logged in, provided the token codec
   * reads back the subject it was given.
   */
  lemma LoginTokenResolves(students: map<int, Student>, username: string, password: string,
                           verify: (string, string) -> bool, createToken: string -> string,
                           decode: string -> Option<TokenData>, cookie: Option<string>)
    requires StudentsKeyed(students) && RegisterNumbersUnique(students)
    requires forall id :: id in students ==> Printable(id)
    requires forall sub :: createToken(sub) != "" && Subject(decode(createToken(sub))) == Some(sub)
    requires Auth.Login(students, username, password, verify, createToken).Ok?
    ensures var token := Auth.Login(students, username, password, verify, createToken).value;
            var r := GetCurrentStudent(Some(token.accessToken), cookie, decode, students);
            r.Ok? && r.value.registerNumber == username && verify(password, r.value.hashedPassword)
  {
    var token := Auth.Login(students, username, password, verify, createToken).value;
    var id :| id in students && students[id].registerNumber == username &&
              token == Auth.Token(createToken(FormatInt(students[id].id)), "bearer");
    assert students[id].id == id;
    ParseFormatRoundTrip(id);
    assert Subject(decode(token.accessToken)) == Some(FormatInt(id));
  }
}
