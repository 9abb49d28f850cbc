/** The express-validator rule sets that run before the handlers. Each
    endpoint declares a list of chains, one per body field; every validator of
    every chain runs, each failing one adds a violation, and the request is
    rejected as a whole when the list is not empty. */
module Validation {
  import opened Common

  /** The library predicates and sanitizer whose definitions are not part of
      this model, passed in as values. */
  datatype Validators = Validators(
    isEmail: string -> bool,
    isISO8601: string -> bool,
    normalizeEmail: string -> string)

  /** One validator of a chain. `IsLength` has an optional upper bound. */
  datatype Check =
    | NotEmpty
    | IsLength(min: nat, max: Option<nat>)
    | IsEmail
    | IsISO8601
    | IsIn(options: seq<string>)

  /** A validator together with the message `withMessage` attaches to it. */
  datatype Rule = Rule(check: Check, message: string)

  /** `body(field)` with its validators; `optional` when `.optional()` is in the chain. */
  datatype Chain = Chain(field: string, value: Input, optional: bool, rules: seq<Rule>)

  /** One entry of the `details` array of a 400 response. */
  datatype Violation = Violation(field: string, message: string)

  /** What `handleValidationErrors` does: call `next()`, or answer 400. */
  datatype Gate = Next | Reject(code: int, error: string, details: seq<Violation>)

  /** The string a validator sees: `undefined` and `null` read as the empty string. */
  function AsText(v: Input): string {
    match v
    case Str(s) => s
    case _ => ""
  }

  predicate Passes(c: Check, text: string, lib: Validators) {
    match c
    case NotEmpty => |text| > 0
    case IsLength(min, max) => min <= |text| && (max.Some? ==> |text| <= max.value)
    case IsEmail => lib.isEmail(text)
    case IsISO8601 => lib.isISO8601(text)
    case IsIn(options) => text in options
  }

  /** The violations of one chain's validators, in declaration order: one per failing validator. */
  function RuleViolations(field: string, text: string, rules: seq<Rule>, lib: Validators): (r: seq<Violation>)
    ensures r == [] <==> forall i :: 0 <= i < |rules| ==> Passes(rules[i].check, text, lib)
    ensures |r| <= |rules|
    ensures forall k :: 0 <= k < |r| ==> r[k].field == field
  {
    if rules == [] then []
    else
      var rest := RuleViolations(field, text, rules[1..], lib);
      assert forall i :: 1 <= i < |rules| ==> rules[i] == rules[1..][i - 1];
      if Passes(rules[0].check, text, lib) then rest
      else [Violation(field, rules[0].message)] + rest
  }

  /** What a chain reports: each failing validator contributes its own
      message under the chain's field, and nothing else is reported. */
  lemma {:induction false} RuleViolationsReport(field: string, text: string, rules: seq<Rule>, lib: Validators)
    ensures var r := RuleViolations(field, text, rules, lib);
      && (forall i :: 0 <= i < |rules| && !Passes(rules[i].check, text, lib) ==> Violation(field, rules[i].message) in r)
      && (forall v :: v in r ==> exists i :: 0 <= i < |rules| && !Passes(rules[i].check, text, lib) && v == Violation(field, rules[i].message))
  {
    if rules != [] {
      RuleViolationsReport(field, text, rules[1..], lib);
      assert forall i :: 1 <= i < |rules| ==> rules[i] == rules[1..][i - 1];
    }
  }

  /** A chain marked optional is skipped entirely when its field is undefined. */
  function ChainViolations(c: Chain, lib: Validators): seq<Violation> {
    if c.optional && c.value == Absent then []
    else RuleViolations(c.field, AsText(c.value), c.rules, lib)
  }

  /** Every chain of a rule set runs; the violations are collected in order. */
  function AllViolations(chains: seq<Chain>, lib: Validators): (r: seq<Violation>)
    ensures r == [] <==> forall i :: 0 <= i < |chains| ==> ChainViolations(chains[i], lib) == []
  {
    if chains == [] then []
    else
      assert forall i :: 1 <= i < |chains| ==> chains[i] == chains[1..][i - 1];
      ChainViolations(chains[0], lib) + AllViolations(chains[1..], lib)
  }

  /** The list of a rule set holds exactly the violations its chains report. */
  lemma {:induction false} AllViolationsReport(chains: seq<Chain>, lib: Validators)
    ensures forall v :: v in AllViolations(chains, lib) <==> exists i :: 0 <= i < |chains| && v in ChainViolations(chains[i], lib)
  {
    if chains != [] {
      AllViolationsReport(chains[1..], lib);
      assert forall i :: 1 <= i < |chains| ==> chains[i] == chains[1..][i - 1];
    }
  }

  /** `handleValidationErrors`: the next handler runs exactly when there is no
      violation; otherwise the response is 400 carrying the whole list. */
  function HandleValidationErrors(errors: seq<Violation>): (g: Gate)
    ensures g.Next? <==> errors == []
    ensures g.Reject? ==> g == Reject(400, "Dados inválidos", errors)
  {
    if errors != [] then Reject(400, "Dados inválidos", errors) else Next
  }

  // ---------------------------------------------------------------------------
  // The four rule sets

  const TitleLength := Rule(IsLength(1, Some(255)), "Título deve ter entre 1 e 255 caracteres")
  const DescriptionLength := Rule(IsLength(0, Some(1000)), "Descrição deve ter no máximo 1000 caracteres")
  const DueDateFormat := Rule(IsISO8601, "Data de vencimento deve estar no formato ISO 8601")
  const EmailFormat := Rule(IsEmail, "Email inválido")

  function RegistrationChains(b: RegistrationBody): seq<Chain> {
    [ Chain("name", b.name, false,
        [Rule(NotEmpty, "Nome é obrigatório"), Rule(IsLength(2, None), "Nome deve ter pelo menos 2 caracteres")]),
      Chain("email", b.email, false, [EmailFormat]),
      Chain("password", b.password, false, [Rule(IsLength(6, None), "Senha deve ter pelo menos 6 caracteres")]) ]
  }

  function LoginChains(b: LoginBody): seq<Chain> {
    [ Chain("email", b.email, false, [EmailFormat]),
      Chain("password", b.password, false, [Rule(NotEmpty, "Senha é obrigatória")]) ]
  }

  function TaskCreationChains(b: NewTaskBody): seq<Chain> {
    [ Chain("title", b.title, false, [Rule(NotEmpty, "Título é obrigatório"), TitleLength]),
      Chain("description", b.description, true, [DescriptionLength]),
      Chain("dueDate", b.dueDate, true, [DueDateFormat]) ]
  }

  function TaskUpdateChains(p: TaskPatch): seq<Chain> {
    [ Chain("title", p.title, true, [TitleLength]),
      Chain("description", p.description, true, [DescriptionLength]),
      Chain("status", p.status, true,
        [Rule(IsIn(["pending", "completed"]), "Status deve ser \"pending\" ou \"completed\"")]),
      Chain("dueDate", p.dueDate, true, [DueDateFormat]) ]
  }

  /** `validateUserRegistration`: passes exactly when the name has at least two
      characters, the email is an email and the password has at least six. */
  function ValidateUserRegistration(b: RegistrationBody, lib: Validators): (g: Gate)
    ensures g.Next? <==> 2 <= |AsText(b.name)| && lib.isEmail(AsText(b.email)) && 6 <= |AsText(b.password)|
    ensures g.Reject? ==> g == Reject(400, "Dados inválidos", AllViolations(RegistrationChains(b), lib))
  {
    RegistrationAccepted(b, lib);
    HandleValidationErrors(AllViolations(RegistrationChains(b), lib))
  }

  /** `validateUserLogin`: passes exactly when the email is an email and the
      password is not empty. */
  function ValidateUserLogin(b: LoginBody, lib: Validators): (g: Gate)
    ensures g.Next? <==> lib.isEmail(AsText(b.email)) && AsText(b.password) != ""
    ensures g.Reject? ==> g == Reject(400, "Dados inválidos", AllViolations(LoginChains(b), lib))
  {
    LoginAccepted(b, lib);
    HandleValidationErrors(AllViolations(LoginChains(b), lib))
  }

  /** `validateTaskCreation`: a title of 1 to 255 characters; a description,
      unless undefined, of at most 1000; a due date, unless undefined, in ISO 8601. */
  function ValidateTaskCreation(b: NewTaskBody, lib: Validators): (g: Gate)
    ensures g.Next?
        <==> (&& 1 <= |AsText(b.title)| <= 255
              && (b.description == Absent || |AsText(b.description)| <= 1000)
              && (b.dueDate == Absent || lib.isISO8601(AsText(b.dueDate))))
    ensures g.Reject? ==> g == Reject(400, "Dados inválidos", AllViolations(TaskCreationChains(b), lib))
  {
    TaskCreationAccepted(b, lib);
    HandleValidationErrors(AllViolations(TaskCreationChains(b), lib))
  }

  /** `validateTaskUpdate`: every field is optional, but a field that is
      present (null included) must satisfy its rule. */
  function ValidateTaskUpdate(p: TaskPatch, lib: Validators): (g: Gate)
    ensures g.Next?
        <==> (&& (p.title == Absent || 1 <= |AsText(p.title)| <= 255)
              && (p.description == Absent || |AsText(p.description)| <= 1000)
              && (p.status == Absent || AsText(p.status) == "pending" || AsText(p.status) == "completed")
              && (p.dueDate == Absent || lib.isISO8601(AsText(p.dueDate))))
    ensures g.Reject? ==> g == Reject(400, "Dados inválidos", AllViolations(TaskUpdateChains(p), lib))
  {
    TaskUpdateAccepted(p, lib);
    HandleValidationErrors(AllViolations(TaskUpdateChains(p), lib))
  }

  /** The body the register handler receives: `normalizeEmail` rewrites the
      email field in place (undefined and null read as ""), and the name and
      password are passed on untouched. */
  function SanitizeRegistration(b: RegistrationBody, lib: Validators): (r: RegistrationBody)
    ensures r.name == b.name && r.password == b.password
    ensures r.email == Str(lib.normalizeEmail(AsText(b.email)))
  {
    b.(email := Str(lib.normalizeEmail(AsText(b.email))))
  }

  // ---------------------------------------------------------------------------
  // What each rule set accepts

  lemma {:induction false} ThreeChains(c0: Chain, c1: Chain, c2: Chain, lib: Validators)
    ensures AllViolations([c0, c1, c2], lib) == []
        <==> ChainViolations(c0, lib) == [] && ChainViolations(c1, lib) == [] && ChainViolations(c2, lib) == []
  {
    var cs := [c0, c1, c2];
    assert cs[0] == c0 && cs[1] == c1 && cs[2] == c2;
  }

  lemma FourChains(c0: Chain, c1: Chain, c2: Chain, c3: Chain, lib: Validators)
    ensures AllViolations([c0, c1, c2, c3], lib) == []
        <==> (&& ChainViolations(c0, lib) == [] && ChainViolations(c1, lib) == []
              && ChainViolations(c2, lib) == [] && ChainViolations(c3, lib) == [])
  {
    var cs := [c0, c1, c2, c3];
    assert cs[1..] == [c1, c2, c3];
    ThreeChains(c1, c2, c3, lib);
  }

  /** A chain with one validator reports nothing exactly when it is skipped or the validator passes. */
  lemma SingleRuleChain(c: Chain, lib: Validators)
    requires |c.rules| == 1
    ensures ChainViolations(c, lib) == [] <==> (c.optional && c.value == Absent) || Passes(c.rules[0].check, AsText(c.value), lib)
  {
  }

  /** The registration chains report nothing exactly when the name has at
      least two characters, the email is an email and the password has at least six. */
  lemma RegistrationAccepted(b: RegistrationBody, lib: Validators)
    ensures AllViolations(RegistrationChains(b), lib) == []
        <==> 2 <= |AsText(b.name)| && lib.isEmail(AsText(b.email)) && 6 <= |AsText(b.password)|
  {
    var cs := RegistrationChains(b);
    ThreeChains(cs[0], cs[1], cs[2], lib);
    var nameRules := cs[0].rules;
    assert nameRules[0].check == NotEmpty && nameRules[1].check == IsLength(2, None);
    assert cs[1].rules[0].check == IsEmail;
    assert cs[2].rules[0].check == IsLength(6, None);
  }

  /** An empty name is reported twice, once per validator of its chain, ahead of everything else. */
  lemma EmptyNameReportsBothRules(b: RegistrationBody, lib: Validators)
    requires AsText(b.name) == ""
    ensures var g := ValidateUserRegistration(b, lib);
      g.Reject? && |g.details| >= 2
      && g.details[0] == Violation("name", "Nome é obrigatório")
      && g.details[1] == Violation("name", "Nome deve ter pelo menos 2 caracteres")
  {
    var cs := RegistrationChains(b);
    var nameRules := cs[0].rules;
    var r1 := RuleViolations("name", "", nameRules[1..], lib);
    assert nameRules[1..] == [Rule(IsLength(2, None), "Nome deve ter pelo menos 2 caracteres")];
    assert r1 == [Violation("name", "Nome deve ter pelo menos 2 caracteres")];
    assert ChainViolations(cs[0], lib) == [Violation("name", "Nome é obrigatório")] + r1;
  }

  /** The login chains report nothing exactly when the email is an email and the password is not empty. */
  lemma LoginAccepted(b: LoginBody, lib: Validators)
    ensures AllViolations(LoginChains(b), lib) == []
        <==> lib.isEmail(AsText(b.email)) && AsText(b.password) != ""
  {
    var cs := LoginChains(b);
    assert cs[1..] == [cs[1]];
    assert AllViolations(cs, lib) == ChainViolations(cs[0], lib) + (ChainViolations(cs[1], lib) + AllViolations([], lib));
  }

  /** The creation chains report nothing exactly for a title of 1 to 255 characters; a description, unless
      undefined, of at most 1000; a due date, unless undefined, in ISO 8601. */
  lemma TaskCreationAccepted(b: NewTaskBody, lib: Validators)
    ensures AllViolations(TaskCreationChains(b), lib) == []
        <==> (&& 1 <= |AsText(b.title)| <= 255
              && (b.description == Absent || |AsText(b.description)| <= 1000)
              && (b.dueDate == Absent || lib.isISO8601(AsText(b.dueDate))))
  {
    var cs := TaskCreationChains(b);
    ThreeChains(cs[0], cs[1], cs[2], lib);
    assert cs[0].rules[0].check == NotEmpty && cs[0].rules[1].check == IsLength(1, Some(255));
  }

  /** The update chains make every field optional, but a field that is present must
      satisfy its rule. */
  lemma TaskUpdateAccepted(p: TaskPatch, lib: Validators)
    ensures AllViolations(TaskUpdateChains(p), lib) == []
        <==> (&& (p.title == Absent || 1 <= |AsText(p.title)| <= 255)
              && (p.description == Absent || |AsText(p.description)| <= 1000)
              && (p.status == Absent || AsText(p.status) == "pending" || AsText(p.status) == "completed")
              && (p.dueDate == Absent || lib.isISO8601(AsText(p.dueDate))))
  {
    var cs := TaskUpdateChains(p);
    assert AllViolations(cs, lib) == AllViolations([cs[0], cs[1], cs[2], cs[3]], lib);
    FourChains(cs[0], cs[1], cs[2], cs[3], lib);
    SingleRuleChain(cs[0], lib);
    SingleRuleChain(cs[1], lib);
    SingleRuleChain(cs[2], lib);
    SingleRuleChain(cs[3], lib);
    var status := AsText(p.status);
    assert Passes(cs[2].rules[0].check, status, lib) <==> status == "pending" || status == "completed";
  }

  /** An update body with no field at all passes validation: rejecting an
      empty patch is left to the handler. */
  lemma EmptyPatchPassesValidation(lib: Validators)
    ensures ValidateTaskUpdate(TaskPatch(Absent, Absent, Absent, Absent), lib) == Next
  {
    TaskUpdateAccepted(TaskPatch(Absent, Absent, Absent, Absent), lib);
  }
}
