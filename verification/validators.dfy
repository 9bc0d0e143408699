/** The input schemas of backend/src/utils/validators.js as predicates on
    strings and numbers, each paired with the issue list zod reports, and
    the client-side password rules of frontend/src/pages/Register.jsx.
    Lengths are JavaScript lengths (UTF-16 code units). The email and URL
    formats are verdicts passed in, as their patterns are not part of this
    model. */
module Validators {
  import opened Wrappers
  import Strings

  /** The class `[!@#$%^&*(),.?":{}|<>]`. */
  const Specials: set<char> :=
    {'!', '@', '#', '$', '%', '^', '&', '*', '(', ')', ',', '.', '?', '"', ':', '{', '}', '|', '<', '>'}

  predicate IsSpecial(c: char) { c in Specials }
  predicate IsUpper(c: char) { 'A' <= c <= 'Z' }
  predicate IsLower(c: char) { 'a' <= c <= 'z' }
  predicate IsDigit(c: char) { '0' <= c <= '9' }

  /** `regex(...)` succeeds when some character belongs to the class. */
  predicate HasSpecial(s: string) { exists i | 0 <= i < |s| :: IsSpecial(s[i]) }
  predicate HasUpper(s: string) { exists i | 0 <= i < |s| :: IsUpper(s[i]) }
  predicate HasLower(s: string) { exists i | 0 <= i < |s| :: IsLower(s[i]) }
  predicate HasDigit(s: string) { exists i | 0 <= i < |s| :: IsDigit(s[i]) }

  /** The password rules: at least 8 long and at least one special
      character, upper-case letter, lower-case letter and digit. */
  predicate StrongPassword(p: string)
  {
    Strings.Utf16Length(p) >= 8 && HasSpecial(p) && HasUpper(p) && HasLower(p) && HasDigit(p)
  }

  /** `passwordSchema`: every failing rule reports its message, in the
      schema's order. */
  function PasswordIssues(p: string): (issues: seq<string>)
    ensures |issues| == 0 <==> StrongPassword(p)
    ensures |issues| <= 5
  {
    (if Strings.Utf16Length(p) < 8 then ["Password must be at least 8 characters long"] else [])
    + (if !HasSpecial(p) then ["Must include at least one special character"] else [])
    + (if !HasUpper(p) then ["Must include an uppercase letter"] else [])
    + (if !HasLower(p) then ["Must include a lowercase letter"] else [])
    + (if !HasDigit(p) then ["Must include a number"] else [])
  }

  /** The registration page's own password schema: the same rules with its
      own messages. */
  function ClientPasswordIssues(p: string): (issues: seq<string>)
    ensures |issues| <= 5
  {
    (if Strings.Utf16Length(p) < 8 then ["String must contain at least 8 character(s)"] else [])
    + (if !HasSpecial(p) then ["Include at least one special char"] else [])
    + (if !HasUpper(p) then ["Include uppercase"] else [])
    + (if !HasLower(p) then ["Include lowercase"] else [])
    + (if !HasDigit(p) then ["Include number"] else [])
  }

  /** The five password rules, in the order both schemas list them. */
  datatype PasswordRule = MinLength | Special | Upper | Lower | Digit

  predicate Satisfies(p: string, rule: PasswordRule)
  {
    match rule
    case MinLength => Strings.Utf16Length(p) >= 8
    case Special => HasSpecial(p)
    case Upper => HasUpper(p)
    case Lower => HasLower(p)
    case Digit => HasDigit(p)
  }

  /** `[rule]` when `p` breaks it, else nothing. */
  function IfBroken(p: string, rule: PasswordRule): seq<PasswordRule>
  {
    if Satisfies(p, rule) then [] else [rule]
  }

  /** The rules `p` breaks, in the schemas' order. */
  function Broken(p: string): seq<PasswordRule>
  {
    IfBroken(p, MinLength) + IfBroken(p, Special) + IfBroken(p, Upper) + IfBroken(p, Lower) + IfBroken(p, Digit)
  }

  datatype Side = Server | Client

  /** The message each side reports for a broken rule. */
  function Message(side: Side, rule: PasswordRule): string
  {
    match (side, rule)
    case (Server, MinLength) => "Password must be at least 8 characters long"
    case (Server, Special) => "Must include at least one special character"
    case (Server, Upper) => "Must include an uppercase letter"
    case (Server, Lower) => "Must include a lowercase letter"
    case (Server, Digit) => "Must include a number"
    case (Client, MinLength) => "String must contain at least 8 character(s)"
    case (Client, Special) => "Include at least one special char"
    case (Client, Upper) => "Include uppercase"
    case (Client, Lower) => "Include lowercase"
    case (Client, Digit) => "Include number"
  }

  function Messages(side: Side, rules: seq<PasswordRule>): (r: seq<string>)
    ensures |r| == |rules|
    ensures forall i | 0 <= i < |rules| :: r[i] == Message(side, rules[i])
  {
    if |rules| == 0 then [] else [Message(side, rules[0])] + Messages(side, rules[1..])
  }

  /** The page and the server fail a password on the same rules, in the
      same order, each side with its own message; a rule is listed exactly
      when the password breaks it, so each side accepts exactly the
      passwords the other accepts. */
  lemma ClientAgreesWithServer(p: string)
    ensures PasswordIssues(p) == Messages(Server, Broken(p))
    ensures ClientPasswordIssues(p) == Messages(Client, Broken(p))
    ensures forall rule :: rule in Broken(p) <==> !Satisfies(p, rule)
    ensures |ClientPasswordIssues(p)| == 0 <==> StrongPassword(p)
  {
    ServerMatches(p);
    ClientMatches(p);
    BrokenListsBrokenRules(p);
  }

  /** The server's issue list is its messages for the broken rules. */
  lemma ServerMatches(p: string)
    ensures PasswordIssues(p) == Messages(Server, Broken(p))
  {
    SideIssues(Server, p);
    OneIssue(Server, p, MinLength);
    OneIssue(Server, p, Special);
    OneIssue(Server, p, Upper);
    OneIssue(Server, p, Lower);
    OneIssue(Server, p, Digit);
  }

  /** The page's issue list is its messages for the broken rules. */
  lemma ClientMatches(p: string)
    ensures ClientPasswordIssues(p) == Messages(Client, Broken(p))
  {
    SideIssues(Client, p);
    OneIssue(Client, p, MinLength);
    OneIssue(Client, p, Special);
    OneIssue(Client, p, Upper);
    OneIssue(Client, p, Lower);
    OneIssue(Client, p, Digit);
  }

  lemma OneIssue(side: Side, p: string, rule: PasswordRule)
    ensures Messages(side, IfBroken(p, rule)) == (if Satisfies(p, rule) then [] else [Message(side, rule)])
  {
  }

  /** A rule is listed exactly when the password breaks it. */
  lemma BrokenListsBrokenRules(p: string)
    ensures forall rule :: rule in Broken(p) <==> !Satisfies(p, rule)
  {
    forall rule
      ensures rule in Broken(p) <==> !Satisfies(p, rule)
    {
      var rules := [MinLength, Special, Upper, Lower, Digit];
      assert forall r | r in Broken(p) :: r in rules && !Satisfies(p, r);
      if !Satisfies(p, rule) {
        assert rule in IfBroken(p, rule);
      }
    }
  }

  /** One side's messages for the broken rules, rule by rule. */
  lemma SideIssues(side: Side, p: string)
    ensures Messages(side, Broken(p))
            == Messages(side, IfBroken(p, MinLength)) + Messages(side, IfBroken(p, Special))
               + Messages(side, IfBroken(p, Upper)) + Messages(side, IfBroken(p, Lower))
               + Messages(side, IfBroken(p, Digit))
  {
    var a := IfBroken(p, MinLength) + IfBroken(p, Special);
    var b := a + IfBroken(p, Upper);
    var c := b + IfBroken(p, Lower);
    MessagesAppend(side, IfBroken(p, MinLength), IfBroken(p, Special));
    MessagesAppend(side, a, IfBroken(p, Upper));
    MessagesAppend(side, b, IfBroken(p, Lower));
    MessagesAppend(side, c, IfBroken(p, Digit));
  }

  lemma MessagesAppend(side: Side, a: seq<PasswordRule>, b: seq<PasswordRule>)
    ensures Messages(side, a + b) == Messages(side, a) + Messages(side, b)
  {
    var l := Messages(side, a + b);
    var r := Messages(side, a) + Messages(side, b);
    forall i | 0 <= i < |l|
      ensures l[i] == r[i]
    {
      if i >= |a| {
        assert (a + b)[i] == b[i - |a|];
      }
    }
  }

  /** Appending characters to a strong password keeps it strong. */
  lemma StrongPasswordExtends(p: string, q: string)
    requires StrongPassword(p)
    ensures StrongPassword(p + q)
  {
    Strings.Utf16LengthAppend(p, q);
    forall i | 0 <= i < |p| ensures (p + q)[i] == p[i] { }
  }

  /** `fullNameSchema`: a length from 3 to 100. */
  function FullNameIssues(s: string): (issues: seq<string>)
    ensures |issues| == 0 <==> 3 <= Strings.Utf16Length(s) <= 100
    ensures |issues| <= 1
  {
    if Strings.Utf16Length(s) < 3 then ["Full name must be at least 3 characters"]
    else if Strings.Utf16Length(s) > 100 then ["Full name must be at most 100 characters"]
    else []
  }

  /** zod's default messages for a string's `min` and `max`. */
  function LengthIssues(s: string, min: nat, max: Option<nat>): (issues: seq<string>)
    ensures |issues| == 0 <==> min <= Strings.Utf16Length(s) && (max.Some? ==> Strings.Utf16Length(s) <= max.value)
    ensures |issues| <= 1
  {
    if Strings.Utf16Length(s) < min then ["String must contain at least " + NatText(min) + " character(s)"]
    else if max.Some? && Strings.Utf16Length(s) > max.value then ["String must contain at most " + NatText(max.value) + " character(s)"]
    else []
  }

  /** The decimal text of a number, as a message template prints it: a
      run of digits that reads back as `n`, without a leading zero. */
  function NatText(n: nat): (s: string)
    ensures |s| > 0
    ensures forall i | 0 <= i < |s| :: IsDigit(s[i])
    ensures DigitsValue(s) == n
    ensures s[0] == '0' <==> n == 0
  {
    var d := ['0' + (n % 10) as char];
    if n < 10 then d
    else
      var s := NatText(n / 10) + d;
      assert s[..|s| - 1] == NatText(n / 10);
      s
  }

  /** The number a run of decimal digits denotes. */
  function DigitsValue(s: string): nat
  {
    if |s| == 0 then 0
    else DigitsValue(s[..|s| - 1]) * 10 + (if IsDigit(s[|s| - 1]) then s[|s| - 1] as int - '0' as int else 0)
  }

  datatype RegisterInput = RegisterInput(firstName: string, lastName: string, email: string, password: string)

  /** `registerSchema`: names of 3 to 50, a valid email, a strong password. */
  function RegisterIssues(input: RegisterInput, emailValid: bool): (issues: seq<string>)
    ensures |issues| == 0 <==>
              && 3 <= Strings.Utf16Length(input.firstName) <= 50
              && 3 <= Strings.Utf16Length(input.lastName) <= 50
              && emailValid
              && StrongPassword(input.password)
  {
    LengthIssues(input.firstName, 3, Some(50))
    + LengthIssues(input.lastName, 3, Some(50))
    + (if emailValid then [] else ["Invalid email format"])
    + PasswordIssues(input.password)
  }

  /** `loginSchema`: a valid email and any non-empty password; the password
      rules of registration are not applied. */
  function LoginIssues(email: string, password: string, emailValid: bool): (issues: seq<string>)
    ensures |issues| == 0 <==> emailValid && password != ""
  {
    (if emailValid then [] else ["Invalid email format"])
    + (if Strings.Utf16Length(password) < 1 then ["Password is required"] else [])
  }

  /** A weak password that registration refuses still passes the login
      schema. */
  lemma LoginIgnoresPasswordRules(email: string)
    ensures |RegisterIssues(RegisterInput("Ada", "Lovelace", email, "a"), true)| > 0
    ensures LoginIssues(email, "a", true) == []
  {
    assert !StrongPassword("a") by {
      assert Strings.Utf16Length("a") == 1;
    }
  }

  datatype ProductInput = ProductInput(
    name: string,
    description: Option<string>,
    category: Option<string>,
    price: real,
    image: Option<string>)

  /** `productSchema`: a name of 1 to 100, an optional description of at
      most 500 and category of at most 50, a positive price, and an
      optional image URL (`urlValid` is the format verdict). */
  function ProductIssues(input: ProductInput, urlValid: bool): (issues: seq<string>)
    ensures |issues| == 0 <==>
              && 1 <= Strings.Utf16Length(input.name) <= 100
              && (input.description.Some? ==> Strings.Utf16Length(input.description.value) <= 500)
              && (input.category.Some? ==> Strings.Utf16Length(input.category.value) <= 50)
              && input.price > 0.0
              && (input.image.Some? ==> urlValid)
  {
    LengthIssues(input.name, 1, Some(100))
    + (if input.description.Some? then LengthIssues(input.description.value, 0, Some(500)) else [])
    + (if input.category.Some? then LengthIssues(input.category.value, 0, Some(50)) else [])
    + (if input.price <= 0.0 then ["Number must be greater than 0"] else [])
    + (if input.image.Some? && !urlValid then ["Invalid url"] else [])
  }
}
