/**
  * The account-setup mail service: `POST /send-email` turns a request record
  * into one mail (fixed sender, the request's recipient, a subject carrying
  * the request's correlation id, an HTML body and a plain-text body) and hands
  * it to the mail transport; the transport's outcome becomes the HTTP reply.
  * `GET /health` answers with a fixed status.
  *
  * Request fields are JavaScript values as a JSON body delivers them (a key
  * that is absent reads as `undefined`). Template literals turn them into
  * text with `Render`; the optional Batch and Student ID lines test them with
  * JavaScript truthiness (`Truthy`).
  *
  * Both bodies are built as a sequence of parts: fixed text and holes, a hole
  * being a request field interpolated into the template. The mail carries the
  * flattened strings.
  */
module EmailServer {
  import opened Wrappers
  import Substrings

  // ---------------------------------------------------------------------------
  // JavaScript values of the request
  // ---------------------------------------------------------------------------

  /**
    * The integers a JSON number holds exactly. JavaScript numbers are doubles:
    * every integer up to 2^53 in size is one of them, and ToString writes it
    * as plain decimal digits (the exponent form starts at 10^21).
    */
  type SafeInteger = i: int | -0x20_0000_0000_0000 <= i <= 0x20_0000_0000_0000

  /** A request field: the JSON values a body can carry, or `undefined` when the key is absent. */
  datatype Field = Undefined | Null | Boolean(b: bool) | Integer(i: SafeInteger) | Text(s: string)

  /** The decimal digits of `n`. */
  function NatDigits(n: nat): (digits: string)
    ensures |digits| >= 1 && forall k :: 0 <= k < |digits| ==> '0' <= digits[k] <= '9'
    ensures digits[0] != '0' || n == 0
    decreases n
  {
    if n < 10 then [('0' as int + n) as char]
    else NatDigits(n / 10) + [('0' as int + n % 10) as char]
  }

  /** The number a string of decimal digits denotes. */
  function DigitsValue(digits: string): nat
    requires forall k :: 0 <= k < |digits| ==> '0' <= digits[k] <= '9'
    decreases |digits|
  {
    if |digits| == 0 then 0
    else DigitsValue(digits[..|digits| - 1]) * 10 + (digits[|digits| - 1] as int - '0' as int)
  }

  /** Reading the digits back gives the number. */
  lemma {:induction false} DigitsRoundTrip(n: nat)
    ensures DigitsValue(NatDigits(n)) == n
    decreases n
  {
    var d := NatDigits(n);
    if n >= 10 {
      DigitsRoundTrip(n / 10);
      assert d[..|d| - 1] == NatDigits(n / 10);
    }
  }

  /** What a template literal makes of a field (`${x}`): JavaScript's ToString, which writes a safe integer in plain decimal. */
  function Render(f: Field): string {
    match f
    case Undefined => "undefined"
    case Null => "null"
    case Boolean(b) => if b then "true" else "false"
    case Integer(i) => if i < 0 then "-" + NatDigits(-i) else NatDigits(i)
    case Text(s) => s
  }

  /** Whether `f ? a : b` picks `a`: everything except `undefined`, `null`, `false`, `0` and `""`. */
  predicate Truthy(f: Field) {
    match f
    case Undefined => false
    case Null => false
    case Boolean(b) => b
    case Integer(i) => i != 0
    case Text(s) => s != ""
  }

  /** A field that is not truthy renders as one of five fixed texts; a truthy one is never blank. */
  lemma {:induction false} TruthyRender(f: Field)
    ensures !Truthy(f) ==> Render(f) in {"undefined", "null", "false", "0", ""}
    ensures Truthy(f) ==> Render(f) != ""
  {
    if f.Integer? && f.i == 0 {
      assert Render(f) == [('0' as int + 0) as char];
    }
  }

  // ---------------------------------------------------------------------------
  // The request and the mail
  // ---------------------------------------------------------------------------

  /** The body of `POST /send-email`. */
  datatype Request = Request(
    to: Field, name: Field, role: Field, username: Field, password: Field,
    studentId: Field, batch: Field, uniqueId: Field)

  /** What the service hands to the mail transport. */
  datatype Mail = Mail(from: string, to: Field, subject: string, html: string, text: string)

  /** The fixed sender, which is also the contact address in both bodies. */
  const Sender: string := "masadullah373737@gmail.com"

  /** The subject before the correlation id. */
  const SubjectPrefix: string := "Smart Complaint System - Account Setup ("

  // ---------------------------------------------------------------------------
  // Templates as parts
  // ---------------------------------------------------------------------------

  /** The request fields a body interpolates. */
  datatype Slot = Name | Role | Username | Password | Batch | StudentId

  /** A piece of a body: fixed template text, or the rendered value of a field. */
  datatype Part = Lit(text: string) | Hole(slot: Slot, value: string)

  /** The body text the parts spell. */
  function Flatten(parts: seq<Part>): string
    decreases |parts|
  {
    if |parts| == 0 then ""
    else (match parts[0] case Lit(t) => t case Hole(_, v) => v) + Flatten(parts[1..])
  }

  /** The fields interpolated, with their values, in the order they appear. */
  function Holes(parts: seq<Part>): seq<(Slot, string)>
    decreases |parts|
  {
    if |parts| == 0 then []
    else (match parts[0] case Lit(_) => [] case Hole(s, v) => [(s, v)]) + Holes(parts[1..])
  }

  lemma {:induction false} FlattenAppend(a: seq<Part>, b: seq<Part>)
    ensures Flatten(a + b) == Flatten(a) + Flatten(b)
    decreases |a|
  {
    if |a| > 0 {
      FlattenAppend(a[1..], b);
      assert (a + b)[1..] == a[1..] + b;
    } else {
      assert a + b == b;
    }
  }

  lemma {:induction false} HolesAppend(a: seq<Part>, b: seq<Part>)
    ensures Holes(a + b) == Holes(a) + Holes(b)
    decreases |a|
  {
    if |a| > 0 {
      HolesAppend(a[1..], b);
      assert (a + b)[1..] == a[1..] + b;
    } else {
      assert a + b == b;
    }
  }

  /** A single piece of fixed text. */
  function Fixed(text: string): (parts: seq<Part>)
    ensures Flatten(parts) == text && Holes(parts) == []
  {
    [Lit(text)]
  }

  /** A field between the text before it and the text after it. */
  function FieldLine(before: string, slot: Slot, value: string, after: string): (parts: seq<Part>)
    ensures Flatten(parts) == before + value + after
    ensures Holes(parts) == [(slot, value)]
  {
    var parts := [Lit(before), Hole(slot, value), Lit(after)];
    assert parts[1..] == [Hole(slot, value), Lit(after)] && parts[1..][1..] == [Lit(after)];
    assert Flatten([Lit(after)]) == after && Holes([Lit(after)]) == [] by {
      assert [Lit(after)][1..] == [];
    }
    parts
  }

  /** `${f ? `...${f}...` : ''}`: a line shown only when the field is truthy. */
  function OptionalLine(before: string, slot: Slot, f: Field, after: string): seq<Part> {
    if Truthy(f) then FieldLine(before, slot, Render(f), after) else []
  }

  /** An optional line's text is the labelled field when the field is truthy and nothing otherwise. */
  lemma {:induction false} OptionalLineText(before: string, slot: Slot, f: Field, after: string)
    ensures Flatten(OptionalLine(before, slot, f, after)) == (if Truthy(f) then before + Render(f) + after else "")
  {
  }

  const HtmlHead: string :=
    "\n<!DOCTYPE html>\n<html>\n<head>\n<title>Smart Complaint System - Account Setup</title>\n" +
    "</head>\n<body>\n<div>\n<div>\n<h1>Smart Complaint System</h1>\n</div>\n\n<div>\n"

  const HtmlTail: string :=
    "</div>\n\n<p>Please log in to update your password and access the system.</p>\n\n" +
    "<p>If you have any questions, please contact us at " + Sender + "</p>\n\n" +
    "<p>Best regards,<br>Smart Complaint System Team</p>\n</div>\n\n" +
    "<div>\n<p>\U{A9} 2025 Smart Complaint System. All rights reserved.</p>\n</div>\n</div>\n</body>\n</html>\n"

  const TextTail: string :=
    "\nPlease log in to update your password and access the system.\n" +
    "Contact us at " + Sender + " for assistance.\n\nBest regards,\nSmart Complaint System Team\n\n" +
    "\U{A9} 2025 Smart Complaint System. All rights reserved.\n      "

  /**
    * The parts of a body, in order. Both bodies are laid out as thirteen
    * sections with the same skeleton: fixed text at the even positions; name,
    * role, username and password at 1, 3, 5 and 7; the optional Batch and
    * Student ID lines at 9 and 11.
    */
  function Concat(sections: seq<seq<Part>>): seq<Part>
    decreases |sections|
  {
    if |sections| == 0 then [] else sections[0] + Concat(sections[1..])
  }

  /** The HTML body, without the style attributes and indentation of the markup. */
  function HtmlSections(r: Request): seq<seq<Part>> {
    [ Fixed(HtmlHead),
      FieldLine("<p>Dear ", Name, Render(r.name), ",</p>"),
      Fixed("\n\n"),
      FieldLine("<p>Your account for Smart Complaint System has been set up as a ", Role, Render(r.role), ".</p>"),
      Fixed("\n\n<div>\n<h3>Login Credentials:</h3>\n"),
      FieldLine("<p><strong>Email:</strong> ", Username, Render(r.username), "</p>"),
      Fixed("\n"),
      FieldLine("<p><strong>Password:</strong> ", Password, Render(r.password), "</p>"),
      Fixed("\n"),
      OptionalLine("<p><strong>Batch:</strong> ", Batch, r.batch, "</p>"),
      Fixed("\n"),
      OptionalLine("<p><strong>Student ID:</strong> ", StudentId, r.studentId, "</p>"),
      Fixed("\n" + HtmlTail) ]
  }

  /** The plain-text body, character for character. */
  function TextSections(r: Request): seq<seq<Part>> {
    [ Fixed("\n"),
      FieldLine("Hello ", Name, Render(r.name), ",\n"),
      Fixed("\n"),
      FieldLine("Your account for Smart Complaint System has been set up as a ", Role, Render(r.role), ".\n"),
      Fixed("\nLogin Credentials:\n"),
      FieldLine("Email: ", Username, Render(r.username), "\n"),
      Fixed(""),
      FieldLine("Password: ", Password, Render(r.password), "\n"),
      Fixed(""),
      OptionalLine("Batch: ", Batch, r.batch, "\n"),
      Fixed("\n"),
      OptionalLine("Student ID: ", StudentId, r.studentId, "\n"),
      Fixed("\n" + TextTail) ]
  }

  function HtmlParts(r: Request): seq<Part> {
    Concat(HtmlSections(r))
  }

  function TextParts(r: Request): seq<Part> {
    Concat(TextSections(r))
  }

  function Html(r: Request): string {
    Flatten(HtmlParts(r))
  }

  function PlainText(r: Request): string {
    Flatten(TextParts(r))
  }

  /** The subject line for a correlation id. */
  function Subject(uniqueId: Field): string {
    SubjectPrefix + Render(uniqueId) + ")"
  }

  /** The correlation id a subject line carries, if it has the subject's shape. */
  function CorrelationId(subject: string): Option<string> {
    if |subject| > |SubjectPrefix| && subject[..|SubjectPrefix|] == SubjectPrefix && subject[|subject| - 1] == ')'
    then Some(subject[|SubjectPrefix|..|subject| - 1])
    else None
  }

  /** A subject carries id `id` exactly when it is the prefix, the id and a closing parenthesis. */
  lemma {:induction false} CorrelationIdIff(subject: string, id: string)
    ensures CorrelationId(subject) == Some(id) <==> subject == SubjectPrefix + id + ")"
  {
    var p := |SubjectPrefix|;
    if subject == SubjectPrefix + id + ")" {
      assert subject[..p] == SubjectPrefix && subject[p..|subject| - 1] == id;
    }
    if CorrelationId(subject) == Some(id) {
      assert subject == subject[..p] + subject[p..|subject| - 1] + [subject[|subject| - 1]];
    }
  }

  /** The mail built for a request. */
  function Compose(r: Request): (m: Mail)
    ensures m.from == Sender && m.to == r.to
    ensures m.html == Html(r) && m.text == PlainText(r)
    ensures CorrelationId(m.subject) == Some(Render(r.uniqueId))
  {
    CorrelationIdIff(Subject(r.uniqueId), Render(r.uniqueId));
    Mail(Sender, r.to, Subject(r.uniqueId), Html(r), PlainText(r))
  }

  // ---------------------------------------------------------------------------
  // What the bodies say
  // ---------------------------------------------------------------------------

  lemma {:induction false} ConcatAppend(a: seq<seq<Part>>, b: seq<seq<Part>>)
    ensures Concat(a + b) == Concat(a) + Concat(b)
    decreases |a|
  {
    if |a| > 0 {
      ConcatAppend(a[1..], b);
      assert (a + b)[1..] == a[1..] + b;
    } else {
      assert a + b == b;
    }
  }

  /** The text of the consecutive sections i to j - 1 appears in the text of the whole body. */
  lemma {:induction false} SectionsShown(sections: seq<seq<Part>>, i: int, j: int)
    requires 0 <= i <= j <= |sections|
    ensures Substrings.Occurs(Flatten(Concat(sections)), Flatten(Concat(sections[i..j])))
  {
    var a, m, b := sections[..i], sections[i..j], sections[j..];
    Pieces(sections, i, j);
    FlattenThreeWay(a, m, b);
    Substrings.OccursInMiddle(Flatten(Concat(a)), Flatten(Concat(m)), Flatten(Concat(b)));
  }

  /** A sequence is its part before i, its part from i to j and its part from j. */
  lemma {:induction false} Pieces<T>(s: seq<T>, i: int, j: int)
    requires 0 <= i <= j <= |s|
    ensures s == s[..i] + s[i..j] + s[j..]
  {
    assert s == s[..i] + s[i..j] + s[j..];
  }

  /** The text of consecutive runs of sections is the text of each run, in order. */
  lemma {:induction false} FlattenThreeWay(a: seq<seq<Part>>, m: seq<seq<Part>>, b: seq<seq<Part>>)
    ensures Flatten(Concat(a + m + b)) == Flatten(Concat(a)) + Flatten(Concat(m)) + Flatten(Concat(b))
  {
    FlattenConcatAppend(a + m, b);
    FlattenConcatAppend(a, m);
  }

  lemma {:induction false} FlattenConcatAppend(a: seq<seq<Part>>, b: seq<seq<Part>>)
    ensures Flatten(Concat(a + b)) == Flatten(Concat(a)) + Flatten(Concat(b))
  {
    ConcatAppend(a, b);
    FlattenAppend(Concat(a), Concat(b));
  }

  /** The text of section k appears in the text of the whole body. */
  lemma {:induction false} SectionShown(sections: seq<seq<Part>>, k: int)
    requires 0 <= k < |sections|
    ensures Substrings.Occurs(Flatten(Concat(sections)), Flatten(sections[k]))
  {
    SectionsShown(sections, k, k + 1);
    assert sections[k..k + 1][1..] == [];
    assert Concat(sections[k..k + 1]) == sections[k] + [] == sections[k];
  }

  /** The fields interpolated by each section, in order. */
  function HolesEach(sections: seq<seq<Part>>): seq<(Slot, string)>
    decreases |sections|
  {
    if |sections| == 0 then [] else Holes(sections[0]) + HolesEach(sections[1..])
  }

  lemma {:induction false} HolesConcat(sections: seq<seq<Part>>)
    ensures Holes(Concat(sections)) == HolesEach(sections)
    decreases |sections|
  {
    if |sections| > 0 {
      HolesConcat(sections[1..]);
      HolesAppend(sections[0], Concat(sections[1..]));
    }
  }

  lemma {:induction false} HolesEachFrom(sections: seq<seq<Part>>, k: int)
    requires 0 <= k < |sections|
    ensures HolesEach(sections[k..]) == Holes(sections[k]) + HolesEach(sections[k + 1..])
  {
    assert sections[k..][1..] == sections[k + 1..];
  }

  /** An optional field as the one entry it contributes, or nothing when it is not truthy. */
  function OptionalDetail(slot: Slot, f: Field): seq<(Slot, string)> {
    if Truthy(f) then [(slot, Render(f))] else []
  }

  /**
    * The content both bodies must carry: name, role, username and password,
    * then Batch and Student ID when they are truthy, each with its rendered value.
    */
  function Details(r: Request): seq<(Slot, string)> {
    [(Name, Render(r.name)), (Role, Render(r.role)), (Username, Render(r.username)), (Password, Render(r.password))]
    + (OptionalDetail(Batch, r.batch) + OptionalDetail(StudentId, r.studentId))
  }

  /** Sections whose holes are the skeleton's: the four required fields, then the two optional ones. */
  lemma {:induction false} SkeletonHoles(r: Request, sections: seq<seq<Part>>)
    requires |sections| == 13
    requires Holes(sections[0]) == Holes(sections[2]) == Holes(sections[4]) == Holes(sections[6]) == []
    requires Holes(sections[8]) == Holes(sections[10]) == Holes(sections[12]) == []
    requires Holes(sections[1]) == [(Name, Render(r.name))] && Holes(sections[3]) == [(Role, Render(r.role))]
    requires Holes(sections[5]) == [(Username, Render(r.username))] && Holes(sections[7]) == [(Password, Render(r.password))]
    requires Holes(sections[9]) == OptionalDetail(Batch, r.batch) && Holes(sections[11]) == OptionalDetail(StudentId, r.studentId)
    ensures Holes(Concat(sections)) == Details(r)
  {
    var optional := OptionalDetail(Batch, r.batch) + OptionalDetail(StudentId, r.studentId);
    HolesConcat(sections);
    assert sections[13..] == [];
    HolesEachFrom(sections, 12);
    HolesEachFrom(sections, 11);
    assert HolesEach(sections[11..]) == OptionalDetail(StudentId, r.studentId);
    HolesEachFrom(sections, 10);
    HolesEachFrom(sections, 9);
    assert HolesEach(sections[9..]) == optional;
    HolesEachFrom(sections, 8);
    HolesEachFrom(sections, 7);
    var h7 := HolesEach(sections[7..]);
    assert h7 == [(Password, Render(r.password))] + optional;
    HolesEachFrom(sections, 6);
    HolesEachFrom(sections, 5);
    var h5 := HolesEach(sections[5..]);
    assert h5 == [(Username, Render(r.username))] + h7;
    HolesEachFrom(sections, 4);
    HolesEachFrom(sections, 3);
    var h3 := HolesEach(sections[3..]);
    assert h3 == [(Role, Render(r.role))] + h5;
    HolesEachFrom(sections, 2);
    HolesEachFrom(sections, 1);
    var h1 := HolesEach(sections[1..]);
    assert h1 == [(Name, Render(r.name))] + h3;
    HolesEachFrom(sections, 0);
    assert sections[0..] == sections;
    ConsFour((Name, Render(r.name)), (Role, Render(r.role)), (Username, Render(r.username)),
      (Password, Render(r.password)), optional);
  }

  /** Four single entries put in front of a list one by one are the four-entry list put in front of it. */
  lemma {:induction false} ConsFour<T>(a: T, b: T, c: T, d: T, rest: seq<T>)
    ensures [a] + ([b] + ([c] + ([d] + rest))) == [a, b, c, d] + rest
  {
    assert [a] + ([b] + ([c] + ([d] + rest))) == [a, b, c, d] + rest;
  }

  /** The HTML body interpolates exactly the content of `Details`. */
  lemma {:induction false} HtmlHoles(r: Request)
    ensures Holes(HtmlParts(r)) == Details(r)
  {
    SkeletonHoles(r, HtmlSections(r));
  }

  /** The text body interpolates exactly the content of `Details`. */
  lemma {:induction false} TextHoles(r: Request)
    ensures Holes(TextParts(r)) == Details(r)
  {
    SkeletonHoles(r, TextSections(r));
  }

  /**
    * Both bodies interpolate the same fields, in the same order, with the same
    * values: the content of `Details`. In particular they make the same
    * include-or-omit decision for Batch and for Student ID.
    */
  lemma {:induction false} BodiesAgree(r: Request)
    ensures Holes(HtmlParts(r)) == Holes(TextParts(r)) == Details(r)
  {
    HtmlHoles(r);
    TextHoles(r);
  }

  /** The fields the entries are about, in order. */
  function SlotsOf(details: seq<(Slot, string)>): seq<Slot> {
    seq(|details|, k requires 0 <= k < |details| => details[k].0)
  }

  /** The slots of a detail list: the four required ones, then Batch and Student ID when shown. */
  function ExpectedSlots(batch: bool, studentId: bool): seq<Slot> {
    [Name, Role, Username, Password] + ((if batch then [Batch] else []) + (if studentId then [StudentId] else []))
  }

  /** How often each slot occurs in such a list. */
  lemma {:induction false} ExpectedSlotCounts(batch: bool, studentId: bool)
    ensures multiset(ExpectedSlots(batch, studentId))[Batch] == if batch then 1 else 0
    ensures multiset(ExpectedSlots(batch, studentId))[StudentId] == if studentId then 1 else 0
    ensures forall s :: s in {Name, Role, Username, Password} ==> multiset(ExpectedSlots(batch, studentId))[s] == 1
  {
    var b: seq<Slot> := if batch then [Batch] else [];
    var i: seq<Slot> := if studentId then [StudentId] else [];
    RequiredSlotCounts();
    assert multiset(ExpectedSlots(batch, studentId)) == multiset([Name, Role, Username, Password]) + multiset(b) + multiset(i);
  }

  /** Each required slot once, no optional one. */
  lemma {:induction false} RequiredSlotCounts()
    ensures forall s :: s in {Name, Role, Username, Password} ==> multiset([Name, Role, Username, Password])[s] == 1
    ensures multiset([Name, Role, Username, Password])[Batch] == multiset([Name, Role, Username, Password])[StudentId] == 0
  {
    assert multiset([Name, Role, Username, Password]) == multiset{Name, Role, Username, Password};
  }

  /**
    * Each body interpolates Batch once when `batch` is truthy and never
    * otherwise, and likewise Student ID; each required field exactly once.
    */
  lemma {:induction false} OptionalFieldCounts(r: Request)
    ensures multiset(SlotsOf(Holes(HtmlParts(r))))[Batch] == multiset(SlotsOf(Holes(TextParts(r))))[Batch] ==
      if Truthy(r.batch) then 1 else 0
    ensures multiset(SlotsOf(Holes(HtmlParts(r))))[StudentId] == multiset(SlotsOf(Holes(TextParts(r))))[StudentId] ==
      if Truthy(r.studentId) then 1 else 0
    ensures forall s :: s in {Name, Role, Username, Password} ==>
      multiset(SlotsOf(Holes(HtmlParts(r))))[s] == multiset(SlotsOf(Holes(TextParts(r))))[s] == 1
  {
    BodiesAgree(r);
    DetailsSlots(r);
    ExpectedSlotCounts(Truthy(r.batch), Truthy(r.studentId));
  }

  /** The slots of `Details`: the four required ones, then the optional ones that are truthy. */
  lemma {:induction false} DetailsSlots(r: Request)
    ensures SlotsOf(Details(r)) == ExpectedSlots(Truthy(r.batch), Truthy(r.studentId))
  {
    var required := [(Name, Render(r.name)), (Role, Render(r.role)), (Username, Render(r.username)), (Password, Render(r.password))];
    var ob, oi := OptionalDetail(Batch, r.batch), OptionalDetail(StudentId, r.studentId);
    SlotsOfAppend(required, ob + oi);
    SlotsOfAppend(ob, oi);
    assert SlotsOf(required) == [Name, Role, Username, Password];
  }

  lemma {:induction false} SlotsOfAppend(a: seq<(Slot, string)>, b: seq<(Slot, string)>)
    ensures SlotsOf(a + b) == SlotsOf(a) + SlotsOf(b)
  {
  }

  /** Name, role, username and password appear verbatim, unescaped, each in its own line of the HTML body. */
  lemma {:induction false} HtmlShowsFields(r: Request)
    ensures Substrings.Occurs(Html(r), "<p>Dear " + Render(r.name) + ",</p>")
    ensures Substrings.Occurs(Html(r), "<p>Your account for Smart Complaint System has been set up as a " + Render(r.role) + ".</p>")
    ensures Substrings.Occurs(Html(r), "<p><strong>Email:</strong> " + Render(r.username) + "</p>")
    ensures Substrings.Occurs(Html(r), "<p><strong>Password:</strong> " + Render(r.password) + "</p>")
  {
    var ss := HtmlSections(r);
    SectionShown(ss, 1);
    SectionShown(ss, 3);
    SectionShown(ss, 5);
    SectionShown(ss, 7);
  }

  /** A truthy Batch or Student ID appears verbatim in a labelled line of the HTML body. */
  lemma {:induction false} HtmlShowsOptionalFields(r: Request)
    ensures Truthy(r.batch) ==> Substrings.Occurs(Html(r), "<p><strong>Batch:</strong> " + Render(r.batch) + "</p>")
    ensures Truthy(r.studentId) ==> Substrings.Occurs(Html(r), "<p><strong>Student ID:</strong> " + Render(r.studentId) + "</p>")
  {
    var ss := HtmlSections(r);
    SectionShown(ss, 9);
    SectionShown(ss, 11);
  }

  /** Name, role, username and password appear verbatim, each in its own line of the text body. */
  lemma {:induction false} TextShowsFields(r: Request)
    ensures Substrings.Occurs(PlainText(r), "Hello " + Render(r.name) + ",\n")
    ensures Substrings.Occurs(PlainText(r), "Your account for Smart Complaint System has been set up as a " + Render(r.role) + ".\n")
    ensures Substrings.Occurs(PlainText(r), "Email: " + Render(r.username) + "\n")
    ensures Substrings.Occurs(PlainText(r), "Password: " + Render(r.password) + "\n")
  {
    var ss := TextSections(r);
    SectionShown(ss, 1);
    SectionShown(ss, 3);
    SectionShown(ss, 5);
    SectionShown(ss, 7);
  }

  /** A truthy Batch or Student ID appears verbatim in a labelled line of the text body. */
  lemma {:induction false} TextShowsOptionalFields(r: Request)
    ensures Truthy(r.batch) ==> Substrings.Occurs(PlainText(r), "Batch: " + Render(r.batch) + "\n")
    ensures Truthy(r.studentId) ==> Substrings.Occurs(PlainText(r), "Student ID: " + Render(r.studentId) + "\n")
  {
    var ss := TextSections(r);
    SectionShown(ss, 9);
    SectionShown(ss, 11);
  }

  /**
    * The body from the password section (section 7) to the end: the texts of
    * sections 7 to 12, back to back.
    */
  lemma {:induction false} EndingShown(sections: seq<seq<Part>>)
    requires |sections| == 13
    ensures Substrings.Occurs(Flatten(Concat(sections)),
      Flatten(sections[7]) + Flatten(sections[8]) + Flatten(sections[9]) +
      Flatten(sections[10]) + Flatten(sections[11]) + Flatten(sections[12]))
  {
    SectionsShown(sections, 7, 13);
    var t := sections[7..13];
    FlattenConcatTake(t, 0);
    FlattenConcatTake(t, 1);
    FlattenConcatTake(t, 2);
    FlattenConcatTake(t, 3);
    FlattenConcatTake(t, 4);
    FlattenConcatTake(t, 5);
    TakeAll(t);
    var f7, f8, f9 := Flatten(sections[7]), Flatten(sections[8]), Flatten(sections[9]);
    var f10, f11, f12 := Flatten(sections[10]), Flatten(sections[11]), Flatten(sections[12]);
    assert Flatten(Concat(t[..0])) == "";
    assert Flatten(Concat(t[..1])) == f7;
    assert Flatten(Concat(t[..2])) == f7 + f8;
    assert Flatten(Concat(t[..3])) == f7 + f8 + f9;
    assert Flatten(Concat(t[..4])) == f7 + f8 + f9 + f10;
    assert Flatten(Concat(t[..5])) == f7 + f8 + f9 + f10 + f11;
    assert Flatten(Concat(t[..6])) == f7 + f8 + f9 + f10 + f11 + f12;
  }

  /** The text of the first k + 1 sections is the text of the first k, then that of section k. */
  lemma {:induction false} FlattenConcatTake(sections: seq<seq<Part>>, k: int)
    requires 0 <= k < |sections|
    ensures Flatten(Concat(sections[..k + 1])) == Flatten(Concat(sections[..k])) + Flatten(sections[k])
  {
    var x := sections[k];
    TakeOneMore(sections, k);
    FlattenConcatAppend(sections[..k], [x]);
    assert [x][1..] == [];
    assert Concat([x]) == x + [];
    assert x + [] == x;
  }

  /** Taking every element gives the whole sequence. */
  lemma {:induction false} TakeAll<T>(s: seq<T>)
    ensures s[..|s|] == s
  {
  }

  /** Taking one more element appends it. */
  lemma {:induction false} TakeOneMore<T>(s: seq<T>, k: int)
    requires 0 <= k < |s|
    ensures s[..k + 1] == s[..k] + [s[k]]
  {
    assert s[..k + 1] == s[..k] + [s[k]];
  }

  /** Regrouping a concatenation, stated on opaque operands so the template text is never unfolded. */
  lemma {:induction false} AppendAssoc(x: string, y: string, z: string)
    ensures x + (y + z) == x + y + z
  {
  }

  /** Each optional slot of the HTML body is its labelled paragraph when the field is truthy, and empty otherwise. */
  lemma {:induction false} HtmlOptionalSlots(r: Request)
    ensures Flatten(HtmlSections(r)[9]) ==
      (if Truthy(r.batch) then "<p><strong>Batch:</strong> " + Render(r.batch) + "</p>" else "")
    ensures Flatten(HtmlSections(r)[11]) ==
      (if Truthy(r.studentId) then "<p><strong>Student ID:</strong> " + Render(r.studentId) + "</p>" else "")
  {
    var ss := HtmlSections(r);
    assert ss[9] == OptionalLine("<p><strong>Batch:</strong> ", Batch, r.batch, "</p>");
    OptionalLineText("<p><strong>Batch:</strong> ", Batch, r.batch, "</p>");
    assert ss[11] == OptionalLine("<p><strong>Student ID:</strong> ", StudentId, r.studentId, "</p>");
    OptionalLineText("<p><strong>Student ID:</strong> ", StudentId, r.studentId, "</p>");
  }

  /** Each optional slot of the text body is its labelled line when the field is truthy, and empty otherwise. */
  lemma {:induction false} TextOptionalSlots(r: Request)
    ensures Flatten(TextSections(r)[9]) ==
      (if Truthy(r.batch) then "Batch: " + Render(r.batch) + "\n" else "")
    ensures Flatten(TextSections(r)[11]) ==
      (if Truthy(r.studentId) then "Student ID: " + Render(r.studentId) + "\n" else "")
  {
    var ss := TextSections(r);
    assert ss[9] == OptionalLine("Batch: ", Batch, r.batch, "\n");
    OptionalLineText("Batch: ", Batch, r.batch, "\n");
    assert ss[11] == OptionalLine("Student ID: ", StudentId, r.studentId, "\n");
    OptionalLineText("Student ID: ", StudentId, r.studentId, "\n");
  }

  /**
    * The plain-text body from the password line on: each optional line is
    * present exactly when its field is truthy, independently of the other,
    * and the template's line break after each slot stays either way.
    */
  lemma {:induction false} OptionalLinesInText(r: Request)
    ensures
      var batch := if Truthy(r.batch) then "Batch: " + Render(r.batch) + "\n" else "";
      var studentId := if Truthy(r.studentId) then "Student ID: " + Render(r.studentId) + "\n" else "";
      Substrings.Occurs(PlainText(r), "Password: " + Render(r.password) + "\n" + batch + "\n" + studentId + "\n" + TextTail)
  {
    var ss := TextSections(r);
    assert PlainText(r) == Flatten(Concat(ss));
    TextOptionalSlots(r);
    EndingShown(ss);
    var line := "Password: " + Render(r.password) + "\n";
    var tail := "\n" + TextTail;
    assert Flatten(ss[7]) == line && Flatten(ss[8]) == "" && Flatten(ss[10]) == "\n" && Flatten(ss[12]) == tail;
    assert line + "" == line;
    AppendAssoc(line + Flatten(ss[9]) + "\n" + Flatten(ss[11]), "\n", TextTail);
  }

  /** The same for the HTML body, from the password paragraph on. */
  lemma {:induction false} OptionalLinesInHtml(r: Request)
    ensures
      var batch := if Truthy(r.batch) then "<p><strong>Batch:</strong> " + Render(r.batch) + "</p>" else "";
      var studentId := if Truthy(r.studentId) then "<p><strong>Student ID:</strong> " + Render(r.studentId) + "</p>" else "";
      Substrings.Occurs(Html(r), "<p><strong>Password:</strong> " + Render(r.password) + "</p>" + "\n" + batch + "\n" + studentId + "\n" + HtmlTail)
  {
    var ss := HtmlSections(r);
    assert Html(r) == Flatten(Concat(ss));
    HtmlOptionalSlots(r);
    EndingShown(ss);
    var line := "<p><strong>Password:</strong> " + Render(r.password) + "</p>";
    var tail := "\n" + HtmlTail;
    assert Flatten(ss[7]) == line && Flatten(ss[8]) == "\n" && Flatten(ss[10]) == "\n" && Flatten(ss[12]) == tail;
    AppendAssoc(line + "\n" + Flatten(ss[9]) + "\n" + Flatten(ss[11]), "\n", HtmlTail);
  }

  /**
    * An omitted line leaves nothing behind but the template's own line break:
    * with neither optional field truthy, the plain-text password line is
    * followed by the bare line breaks around the two empty slots and then the
    * rest of the template.
    */
  lemma {:induction false} OmittedLinesInText(r: Request)
    requires !Truthy(r.batch) && !Truthy(r.studentId)
    ensures Substrings.Occurs(PlainText(r), "Password: " + Render(r.password) + "\n" + "\n" + "\n" + TextTail)
  {
    OptionalLinesInText(r);
    var line := "Password: " + Render(r.password) + "\n";
    assert line + "" == line && line + "\n" + "" == line + "\n";
  }

  /** The same for the HTML body: the password paragraph, three line breaks, then the rest of the template. */
  lemma {:induction false} OmittedLinesInHtml(r: Request)
    requires !Truthy(r.batch) && !Truthy(r.studentId)
    ensures Substrings.Occurs(Html(r), "<p><strong>Password:</strong> " + Render(r.password) + "</p>" + "\n" + "\n" + "\n" + HtmlTail)
  {
    OptionalLinesInHtml(r);
    var line := "<p><strong>Password:</strong> " + Render(r.password) + "</p>" + "\n";
    assert line + "" == line && line + "\n" + "" == line + "\n";
  }

  /** Which falsy value an optional field holds (absent, null, false, 0 or "") makes no difference to the mail. */
  lemma {:induction false} FalsyFieldsInterchangeable(r: Request, batch: Field, studentId: Field)
    requires !Truthy(r.batch) && !Truthy(batch) && !Truthy(r.studentId) && !Truthy(studentId)
    ensures Compose(r.(batch := batch, studentId := studentId)) == Compose(r)
  {
  }

  // ---------------------------------------------------------------------------
  // Replies
  // ---------------------------------------------------------------------------

  /** What the transport's `sendMail` did: accepted with an id, or threw an error with a message. */
  datatype Delivery = Delivered(messageId: string) | Failed(message: string)

  /**
    * The JSON bodies the service answers with: `{success: true, messageId}`,
    * `{success: false, error}` and `{status, message}`.
    */
  datatype Json = SendSucceeded(messageId: string) | SendFailed(error: string) | HealthStatus(status: string, message: string)

  datatype Response = Response(status: int, body: Json)

  /** The reply to `POST /send-email` once the transport has answered. */
  function Respond(d: Delivery): (resp: Response)
    ensures resp.status == 200 <==> d.Delivered?
    ensures resp.status == 500 <==> d.Failed?
  {
    match d
    case Delivered(id) => Response(200, SendSucceeded(id))
    case Failed(message) => Response(500, SendFailed(message))
  }

  /** The transport outcome a reply reports, if it is a `POST /send-email` reply. */
  function DeliveryOf(resp: Response): Option<Delivery> {
    match resp.body
    case SendSucceeded(id) => if resp.status == 200 then Some(Delivered(id)) else None
    case SendFailed(message) => if resp.status == 500 then Some(Failed(message)) else None
    case HealthStatus(_, _) => None
  }

  /** A reply reports exactly the outcome it was made from: the message id on success, the error message on failure. */
  lemma {:induction false} RespondRoundTrip(d: Delivery)
    ensures DeliveryOf(Respond(d)) == Some(d)
  {
  }

  /** The two routes. */
  datatype Endpoint = SendEmail(request: Request) | Health

  /** One request to the service: the mail it sent, if any, and its reply. */
  datatype Exchange = Exchange(sent: Option<Mail>, response: Response)

  /**
    * One request to the service, with the mail transport as a parameter: the
    * send route hands the composed mail to the transport once and replies with
    * its outcome; the health route never touches the transport.
    */
  function Serve(e: Endpoint, transport: Mail -> Delivery): Exchange {
    match e
    case SendEmail(r) =>
      var m := Compose(r);
      Exchange(Some(m), Respond(transport(m)))
    case Health =>
      Exchange(None, Response(200, HealthStatus("OK", "Email server is running")))
  }

  /** The send route mails exactly the composed mail and reports the transport's own outcome. */
  lemma {:induction false} ServeSendEmail(r: Request, transport: Mail -> Delivery)
    ensures Serve(SendEmail(r), transport).sent == Some(Compose(r))
    ensures DeliveryOf(Serve(SendEmail(r), transport).response) == Some(transport(Compose(r)))
  {
    RespondRoundTrip(transport(Compose(r)));
  }

  /** The health route sends nothing and gives the same reply whatever the transport would do. */
  lemma {:induction false} HealthIgnoresTransport(t1: Mail -> Delivery, t2: Mail -> Delivery)
    ensures Serve(Health, t1) == Serve(Health, t2)
    ensures Serve(Health, t1).sent == None
    ensures Serve(Health, t1).response == Response(200, HealthStatus("OK", "Email server is running"))
  {
  }
}
