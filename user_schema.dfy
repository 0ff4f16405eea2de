/**
 * The request-body schemas of the user endpoints: the one for a full user (username, email,
 * password, optional image id, role and token claims) and the one for a patch (username and
 * password, plus the token claims). A body is a map from key to JSON value.
 *
 * The password rule is the regular expression `^(?=.*[a-z])(?=.*[A-Z])(?=.*\d).{8,}$` beside a
 * minimum length of 8; it is stated here as the regular expression reads and proved equal to
 * "at least 8 characters, no line break, a lower-case letter, an upper-case letter and a digit".
 */
module UserSchema {
  import opened Common
  import opened Text

  /** A JSON value as the validator sees it; `null`, booleans, arrays and fractions are Other. */
  datatype Value = Absent | Str(s: string) | Num(n: int) | Obj(fields: map<string, Value>) | Other

  type Body = map<string, Value>

  /** The value under key k, Absent when the key is missing. */
  function Field(body: Body, k: string): Value {
    if k in body then body[k] else Absent
  }

  /** The messages of the patch schema, and an unknown key, which no schema allows. */
  datatype SchemaError =
    | UsernameString | UsernameRequired | UsernameEmpty
    | PasswordString | PasswordShort | PasswordEmpty | PasswordInvalid | PasswordRequired
    | InvalidUser
    | UnknownKey

  /** The characters `.` does not match: line feed, carriage return and the two Unicode separators. */
  predicate IsLineTerminator(c: char) {
    c == '\n' || c == '\r' || c as int == 0x2028 || c as int == 0x2029
  }

  /** `(?=.*[cls])` at the start: a character of the class follows a run without line breaks. */
  predicate LookaheadAtStart(s: string, cls: char -> bool) {
    exists i | 0 <= i < |s| :: cls(s[i]) && forall j | 0 <= j < i :: !IsLineTerminator(s[j])
  }

  /** `.{8,}$` at the start: at least 8 characters, none of them a line break, up to the end. */
  predicate DotsToEnd(s: string, n: nat) {
    |s| >= n && forall j | 0 <= j < |s| :: !IsLineTerminator(s[j])
  }

  /** The password regular expression, read operator by operator. */
  predicate PatternMatches(s: string) {
    && LookaheadAtStart(s, IsLower)
    && LookaheadAtStart(s, IsUpper)
    && LookaheadAtStart(s, IsDigit)
    && DotsToEnd(s, 8)
  }

  /** The password rule in plain terms. */
  predicate StrongPassword(s: string) {
    && |s| >= 8
    && (forall j | 0 <= j < |s| :: !IsLineTerminator(s[j]))
    && (exists i | 0 <= i < |s| :: IsLower(s[i]))
    && (exists i | 0 <= i < |s| :: IsUpper(s[i]))
    && (exists i | 0 <= i < |s| :: IsDigit(s[i]))
  }

  /**
   * The regular expression accepts exactly the strong passwords: since `.{8,}$` already excludes
   * every line break, each lookahead only asks for one character of its class.
   */
  lemma PatternIsStrong(s: string)
    ensures PatternMatches(s) <==> StrongPassword(s)
  {
    if StrongPassword(s) {
      var a :| 0 <= a < |s| && IsLower(s[a]);
      var b :| 0 <= b < |s| && IsUpper(s[b]);
      var c :| 0 <= c < |s| && IsDigit(s[c]);
      assert IsLower(s[a]) && forall j | 0 <= j < a :: !IsLineTerminator(s[j]);
      assert IsUpper(s[b]) && forall j | 0 <= j < b :: !IsLineTerminator(s[j]);
      assert IsDigit(s[c]) && forall j | 0 <= j < c :: !IsLineTerminator(s[j]);
    }
    if PatternMatches(s) {
      var a :| 0 <= a < |s| && IsLower(s[a]) && forall j | 0 <= j < a :: !IsLineTerminator(s[j]);
      var b :| 0 <= b < |s| && IsUpper(s[b]) && forall j | 0 <= j < b :: !IsLineTerminator(s[j]);
      var c :| 0 <= c < |s| && IsDigit(s[c]) && forall j | 0 <= j < c :: !IsLineTerminator(s[j]);
    }
  }

  /**
   * The password rule of both schemas, with the patch schema's messages in the order the rules
   * are declared: required, string, not empty, at least 8 long, the pattern.
   */
  function PasswordVerdict(v: Value): (r: Outcome<SchemaError>)
    ensures r == Pass <==> v.Str? && StrongPassword(v.s)
    ensures v == Absent ==> r == Fail(PasswordRequired)
    ensures v != Absent && !v.Str? ==> r == Fail(PasswordString)
    ensures v.Str? && 0 < |v.s| < 8 ==> r == Fail(PasswordShort)
    ensures v.Str? && |v.s| >= 8 && !StrongPassword(v.s) ==> r == Fail(PasswordInvalid)
  {
    match v
    case Absent => Fail(PasswordRequired)
    case Str(s) =>
      PatternIsStrong(s);
      if s == "" then Fail(PasswordEmpty)
      else if |s| < 8 then Fail(PasswordShort)
      else if !PatternMatches(s) then Fail(PasswordInvalid)
      else Pass
    case _ => Fail(PasswordString)
  }

  /** `joi.string().required()`: a non-empty string, with the patch schema's messages. */
  function UsernameVerdict(v: Value): (r: Outcome<SchemaError>)
    ensures r == Pass <==> v.Str? && v.s != ""
    ensures v == Absent ==> r == Fail(UsernameRequired)
    ensures v != Absent && !v.Str? ==> r == Fail(UsernameString)
    ensures v == Str("") ==> r == Fail(UsernameEmpty)
  {
    match v
    case Absent => Fail(UsernameRequired)
    case Str(s) => if s == "" then Fail(UsernameEmpty) else Pass
    case _ => Fail(UsernameString)
  }

  /** A required non-empty string. */
  predicate RequiredText(v: Value) {
    v.Str? && v.s != ""
  }

  /**
   * The `user` key, the claims of the caller's token: absent, or an object with a number `id`,
   * string `username` and `email`, an optional number `iat` and no other key.
   */
  predicate ClaimsOk(v: Value) {
    v == Absent ||
    (v.Obj? && v.fields.Keys <= {"id", "username", "email", "iat"}
     && Field(v.fields, "id").Num?
     && RequiredText(Field(v.fields, "username"))
     && RequiredText(Field(v.fields, "email"))
     && (Field(v.fields, "iat") == Absent || Field(v.fields, "iat").Num?))
  }

  /** `role`: absent, or one of the two roles. */
  predicate RoleOk(v: Value) {
    v == Absent || v == Str("normal") || v == Str("admin")
  }

  const UserKeys: set<string> := {"username", "email", "password", "image_id", "role", "user"}
  const PatchKeys: set<string> := {"username", "password", "user"}

  /**
   * userSchema: accepts a body when it has no unknown key, a non-empty username, an email that
   * isEmail accepts, a strong password, a number or nothing as image_id, a known role or none,
   * and well-formed claims or none. Which message is reported first is not modelled.
   */
  function AcceptsUser(body: Body, isEmail: string -> bool): (r: bool)
    ensures r ==> PasswordVerdict(Field(body, "password")) == Pass && UsernameVerdict(Field(body, "username")) == Pass
    ensures r ==> Field(body, "role") in {Absent, Str("normal"), Str("admin")}
    ensures r ==> body.Keys <= UserKeys
  {
    && body.Keys <= UserKeys
    && UsernameVerdict(Field(body, "username")) == Pass
    && RequiredText(Field(body, "email")) && isEmail(Field(body, "email").s)
    && PasswordVerdict(Field(body, "password")) == Pass
    && (Field(body, "image_id") == Absent || Field(body, "image_id").Num?)
    && RoleOk(Field(body, "role"))
    && ClaimsOk(Field(body, "user"))
  }

  /**
   * patchUserSchema: the first failure in key order (username, password, the claims), then an
   * unknown key; Pass exactly when all of them hold.
   */
  function PatchVerdict(body: Body): (r: Outcome<SchemaError>)
    ensures r == Pass <==>
      && RequiredText(Field(body, "username"))
      && Field(body, "password").Str? && StrongPassword(Field(body, "password").s)
      && ClaimsOk(Field(body, "user"))
      && body.Keys <= PatchKeys
    ensures UsernameVerdict(Field(body, "username")).Fail? ==> r == UsernameVerdict(Field(body, "username"))
    ensures UsernameVerdict(Field(body, "username")) == Pass ==>
      PasswordVerdict(Field(body, "password")).Fail? ==> r == PasswordVerdict(Field(body, "password"))
  {
    var u := UsernameVerdict(Field(body, "username"));
    var p := PasswordVerdict(Field(body, "password"));
    if u.Fail? then u
    else if p.Fail? then p
    else if !ClaimsOk(Field(body, "user")) then Fail(InvalidUser)
    else if !(body.Keys <= PatchKeys) then Fail(UnknownKey)
    else Pass
  }

  /** A body the full schema accepts passes the patch schema once trimmed to the patch keys. */
  lemma FullBodyPassesPatch(body: Body, isEmail: string -> bool)
    requires AcceptsUser(body, isEmail)
    ensures PatchVerdict(map k | k in body && k in PatchKeys :: body[k]) == Pass
  {
    var trimmed := map k | k in body && k in PatchKeys :: body[k];
    assert Field(trimmed, "username") == Field(body, "username");
    assert Field(trimmed, "password") == Field(body, "password");
    assert Field(trimmed, "user") == Field(body, "user");
  }

  /** A line break anywhere fails the pattern, even with every required kind of character. */
  lemma LineBreakRejected()
    ensures PasswordVerdict(Str("Abcdefg1\n")) == Fail(PasswordInvalid)
  {
    var s := "Abcdefg1\n";
    assert IsLineTerminator(s[8]);
  }

  /** A password of 8 or more characters without an upper-case letter fails the pattern. */
  lemma NoUpperRejected(s: string)
    requires |s| >= 8
    requires forall i | 0 <= i < |s| :: !IsUpper(s[i])
    ensures PasswordVerdict(Str(s)) == Fail(PasswordInvalid)
  {
  }

  /** A string holding each kind of character, long enough and without line breaks, passes. */
  lemma StrongAccepted(s: string, lower: nat, upper: nat, digit: nat)
    requires |s| >= 8 && forall j | 0 <= j < |s| :: !IsLineTerminator(s[j])
    requires lower < |s| && IsLower(s[lower])
    requires upper < |s| && IsUpper(s[upper])
    requires digit < |s| && IsDigit(s[digit])
    ensures PasswordVerdict(Str(s)) == Pass
  {
  }

  /** The password cases the patch endpoint is exercised with. */
  lemma PasswordExamples()
    ensures PasswordVerdict(Str("short1111")) == Fail(PasswordInvalid)
    ensures PasswordVerdict(Str("short")) == Fail(PasswordShort)
    ensures PasswordVerdict(Num(12345678)) == Fail(PasswordString)
    ensures PasswordVerdict(Str("John1234!")) == Pass
  {
    var weak := "short1111";
    forall i | 0 <= i < |weak| ensures !IsUpper(weak[i]) {
    }
    NoUpperRejected(weak);
    var good := "John1234!";
    forall j | 0 <= j < |good| ensures !IsLineTerminator(good[j]) {
    }
    StrongAccepted(good, 1, 0, 4);
  }

  /** The successful patch request, and the one refused for its password. */
  lemma PatchExamples()
    ensures PatchVerdict(map["username" := Str("John12"), "password" := Str("John1234!")]) == Pass
    ensures PatchVerdict(map["username" := Str("John12"), "password" := Str("short1111")]) == Fail(PasswordInvalid)
    ensures PatchVerdict(map["password" := Str("John1234!")]) == Fail(UsernameRequired)
  {
    PasswordExamples();
    var ok: Body := map["username" := Str("John12"), "password" := Str("John1234!")];
    assert Field(ok, "user") == Absent;
    assert ok.Keys == PatchKeys - {"user"};
    var weak: Body := map["username" := Str("John12"), "password" := Str("short1111")];
    assert Field(weak, "password") == Str("short1111");
    var anonymous: Body := map["password" := Str("John1234!")];
    assert Field(anonymous, "username") == Absent;
  }

  /** With the other fields accepted, setting the role decides acceptance by the role alone. */
  lemma RoleDecides(body: Body, isEmail: string -> bool, role: Value)
    requires "role" !in body && AcceptsUser(body, isEmail)
    ensures AcceptsUser(body["role" := role], isEmail) <==> RoleOk(role)
  {
    var b := body["role" := role];
    assert forall k | k != "role" :: Field(b, k) == Field(body, k);
    assert Field(b, "role") == role;
  }

  /** A body of a non-empty username, an email isEmail accepts and a strong password is accepted. */
  lemma MinimalBodyAccepted(username: string, email: string, password: string, isEmail: string -> bool)
    requires username != "" && email != "" && isEmail(email) && StrongPassword(password)
    ensures AcceptsUser(map["username" := Str(username), "email" := Str(email), "password" := Str(password)], isEmail)
  {
    var body: Body := map["username" := Str(username), "email" := Str(email), "password" := Str(password)];
    assert Field(body, "image_id") == Absent && Field(body, "user") == Absent && Field(body, "role") == Absent;
    assert Field(body, "password") == Str(password);
    assert Field(body, "email") == Str(email);
    assert body.Keys <= UserKeys;
  }

  /** A full body with role admin is accepted. */
  lemma AdminRoleAccepted(isEmail: string -> bool)
    requires isEmail("j@example.com")
    ensures AcceptsUser(map["username" := Str("John12"), "email" := Str("j@example.com"), "password" := Str("John1234!"), "role" := Str("admin")], isEmail)
  {
    var good := "John1234!";
    assert IsLower(good[1]) && IsUpper(good[0]) && IsDigit(good[4]);
    forall j | 0 <= j < |good| ensures !IsLineTerminator(good[j]) {
    }
    MinimalBodyAccepted("John12", "j@example.com", good, isEmail);
    RoleDecides(map["username" := Str("John12"), "email" := Str("j@example.com"), "password" := Str(good)], isEmail, Str("admin"));
  }

  /** A role other than the two is refused, whatever the rest of the body holds. */
  lemma UnknownRoleRefused(body: Body, isEmail: string -> bool)
    ensures !AcceptsUser(body["role" := Str("superuser")], isEmail)
  {
    assert Field(body["role" := Str("superuser")], "role") == Str("superuser");
  }
}
