/** The contact form of client/src/components/contact-section.tsx: the
    validation rule the form's resolver applies, and the pure part of its
    submit handler, which turns the form into the subject and body of an
    e-mail and those into a `mailto:` link. Whether an address is
    well-formed is the parameter `isEmail`. */
module Contact {
  import opened Wrappers
  import opened EcmaScript

  /** The form's values. The fields are always strings: they start as ""
      and the inputs only ever put strings in them. */
  datatype ContactForm = ContactForm(
    firstName: string,
    lastName: string,
    email: string,
    phone: string,
    service: string,
    message: string,
    language: string)

  /** The values the form starts with: everything empty, and `language` the
      language the page is shown in. */
  function DefaultForm(language: string): ContactForm {
    ContactForm("", "", "", "", "", "", language)
  }

  /** The values the service selector offers. */
  const ServiceOptions: seq<string> := ["single", "package", "trial"]

  // ---------------------------------------------------------------------
  // Validation

  const FirstNameRequired := "First name is required"
  const LastNameRequired := "Last name is required"
  const InvalidEmail := "Invalid email address"
  const MessageRequired := "Message is required"

  /** `contactFormSchema`: the messages of the checks that fail, in the
      order of the form's fields. Phone, service and language take any
      string. */
  function ValidationErrors(f: ContactForm, isEmail: string -> bool): (errs: seq<string>)
    ensures FirstNameRequired in errs <==> f.firstName == []
    ensures LastNameRequired in errs <==> f.lastName == []
    ensures InvalidEmail in errs <==> !isEmail(f.email)
    ensures MessageRequired in errs <==> f.message == []
    ensures forall e :: e in errs ==> e in {FirstNameRequired, LastNameRequired, InvalidEmail, MessageRequired}
  {
    (if f.firstName == [] then [FirstNameRequired] else [])
    + (if f.lastName == [] then [LastNameRequired] else [])
    + (if !isEmail(f.email) then [InvalidEmail] else [])
    + (if f.message == [] then [MessageRequired] else [])
  }

  /** The form is submitted only without any error. */
  predicate Accepts(f: ContactForm, isEmail: string -> bool) {
    ValidationErrors(f, isEmail) == []
  }

  /** The form accepts exactly the data with both names and a message
      non-empty and a well-formed address. */
  lemma AcceptsExactly(f: ContactForm, isEmail: string -> bool)
    ensures Accepts(f, isEmail) <==>
      f.firstName != [] && f.lastName != [] && isEmail(f.email) && f.message != []
  {
    var errs := ValidationErrors(f, isEmail);
    if errs != [] {
      assert errs[0] in errs;
    }
  }

  /** The untouched form is never submitted, whatever counts as an
      address. */
  lemma DefaultFormRefused(language: string, isEmail: string -> bool)
    ensures !Accepts(DefaultForm(language), isEmail)
    ensures FirstNameRequired in ValidationErrors(DefaultForm(language), isEmail)
  {
  }

  // ---------------------------------------------------------------------
  // The e-mail

  function FullName(f: ContactForm): string {
    f.firstName + " " + f.lastName
  }

  /** The subject names the sender after a fixed caption, and is one line
      when the two names are. */
  function Subject(f: ContactForm): (s: string)
    ensures |s| > |FullName(f)| && s[|s| - |FullName(f)|..] == FullName(f)
    ensures OneLine(f.firstName) && OneLine(f.lastName) ==> OneLine(s)
  {
    "Driving Lesson Inquiry - " + FullName(f)
  }

  /** `${value ? `caption${value}` : ''}`: the labelled value, or nothing when
      the value is empty. */
  function OptionalLine(caption: string, value: string): string {
    if value != [] then caption + value else ""
  }

  const Greeting := "Hello Top Automaat Les,"
  /** The second line of the body, the sender's request. The literal is
      written as three concatenated pieces because the verifier checks that
      a line holds no line break piece by piece more cheaply than on one
      long literal; the value is the template's line verbatim. */
  const Interest := "I am interested in driving " + "lessons and would like to " + "get more information."
  const Closing := "Best regards,"

  /** `a + "\n" + b`. */
  function Join(a: string, b: string): string {
    a + "\n" + b
  }

  /** The body the template literal writes, one line of the literal per
      `Join`: the greeting, the interest, the name and the e-mail, the
      optional phone and service lines, the message after `Message:`, and
      the closing with the sender's name. */
  function Body(f: ContactForm): (b: string)
    ensures |b| > |Greeting| && b[..|Greeting| + 1] == Greeting + "\n"
    ensures |b| > |FullName(f)| && b[|b| - |FullName(f)|..] == FullName(f)
  {
    Join(Greeting, Join("", Join(Interest, Join("",
    Join("Name: " + FullName(f), Join("Email: " + f.email,
    Join(OptionalLine("Phone: ", f.phone), Join(OptionalLine("Preferred Service: ", f.service),
    Join("", Join("Message:", Join(f.message, Join("", Join(Closing, FullName(f))))))))))))))
  }

  // ---------------------------------------------------------------------
  // Lines of the body

  predicate OneLine(s: string) {
    '\n' !in s
  }

  /** `s.split("\n")`. */
  function Lines(s: string): (ls: seq<string>)
    ensures |ls| >= 1
  {
    if s == [] then [""]
    else if s[0] == '\n' then [""] + Lines(s[1..])
    else var rest := Lines(s[1..]); [[s[0]] + rest[0]] + rest[1..]
  }

  /** Splitting at a line break splits each side. */
  lemma {:induction false} LinesJoin(a: string, b: string)
    ensures Lines(a + "\n" + b) == Lines(a) + Lines(b)
  {
    var s := a + "\n" + b;
    if a == [] {
      assert s == "\n" + b && s[1..] == b;
    } else {
      assert s[0] == a[0];
      assert s[1..] == a[1..] + "\n" + b;
      LinesJoin(a[1..], b);
    }
  }

  lemma {:induction false} LinesOne(s: string)
    requires OneLine(s)
    ensures Lines(s) == [s]
  {
    if s != [] {
      LinesOne(s[1..]);
      assert [s[0]] + s[1..] == s;
    }
  }

  lemma LinesJoinOne(a: string, b: string)
    requires OneLine(a)
    ensures Lines(Join(a, b)) == [a] + Lines(b)
  {
    LinesJoin(a, b);
    LinesOne(a);
  }

  lemma OneLineAppend(a: string, b: string)
    requires OneLine(a) && OneLine(b)
    ensures OneLine(a + b)
  {
  }

  lemma OneLineGreeting()
    ensures OneLine(Greeting) && OneLine(Closing)
  {
  }

  lemma OneLineInterest()
    ensures OneLine(Interest)
  {
  }

  lemma OneLineCaptions()
    ensures OneLine("Name: ") && OneLine("Email: ") && OneLine("Phone: ") && OneLine("Preferred Service: ")
  {
  }

  lemma OneLineFields(f: ContactForm)
    requires OneLine(f.firstName) && OneLine(f.lastName) && OneLine(f.email)
    requires OneLine(f.phone) && OneLine(f.service)
    ensures OneLine(FullName(f)) && OneLine("Name: " + FullName(f)) && OneLine("Email: " + f.email)
    ensures OneLine(OptionalLine("Phone: ", f.phone)) && OneLine(OptionalLine("Preferred Service: ", f.service))
  {
    OneLineCaptions();
    assert OneLine(" ");
    OneLineAppend(f.firstName, " ");
    OneLineAppend(f.firstName + " ", f.lastName);
    OneLineAppend("Name: ", FullName(f));
    OneLineAppend("Email: ", f.email);
    OneLineAppend("Phone: ", f.phone);
    OneLineAppend("Preferred Service: ", f.service);
  }

  /** The body line by line: greeting, interest, name and e-mail; a
      `Phone: ` line when a phone number was given and an empty line
      otherwise, the same for the service; then the message verbatim after
      `Message:`, and last the closing and the sender's full name. This
      holds when the single-line fields hold no line break. */
  lemma BodyLines(f: ContactForm)
    requires OneLine(f.firstName) && OneLine(f.lastName) && OneLine(f.email)
    requires OneLine(f.phone) && OneLine(f.service)
    ensures Lines(Body(f)) ==
      [Greeting, "", Interest, "", "Name: " + FullName(f), "Email: " + f.email,
       OptionalLine("Phone: ", f.phone), OptionalLine("Preferred Service: ", f.service), "", "Message:"]
      + Lines(f.message) + ["", Closing, FullName(f)]
  {
    OneLineFields(f);
    TemplateLines(FullName(f), f.email, OptionalLine("Phone: ", f.phone),
                  OptionalLine("Preferred Service: ", f.service), f.message);
  }

  /** The template's lines, with the interpolated values as parameters. */
  lemma TemplateLines(name: string, email: string, phone: string, service: string, message: string)
    requires OneLine(name) && OneLine("Name: " + name) && OneLine("Email: " + email)
    requires OneLine(phone) && OneLine(service)
    ensures Lines(Join(Greeting, Join("", Join(Interest, Join("",
              Join("Name: " + name, Join("Email: " + email,
              Join(phone, Join(service,
              Join("", Join("Message:", Join(message, Join("", Join(Closing, name)))))))))))))) ==
      [Greeting, "", Interest, "", "Name: " + name, "Email: " + email, phone, service, "", "Message:"]
      + Lines(message) + ["", Closing, name]
  {
    OneLineGreeting();
    OneLineInterest();
    var t9 := Join("Message:", Join(message, Join("", Join(Closing, name))));
    var t5 := Join("Email: " + email, Join(phone, Join(service, Join("", t9))));
    var t1 := Join("", Join(Interest, Join("", Join("Name: " + name, t5))));
    LinesFromMessage(message, name);
    LinesOfFields(email, phone, service, t9);
    LinesOfHead(name, t5);
    LinesJoinOne(Greeting, t1);
  }

  lemma LinesFromMessage(message: string, name: string)
    requires OneLine(name) && OneLine(Closing)
    ensures Lines(Join("Message:", Join(message, Join("", Join(Closing, name)))))
         == ["Message:"] + Lines(message) + ["", Closing, name]
  {
    LinesOne(name);
    LinesJoinOne(Closing, name);
    LinesJoinOne("", Join(Closing, name));
    LinesJoin(message, Join("", Join(Closing, name)));
    LinesJoinOne("Message:", Join(message, Join("", Join(Closing, name))));
  }

  lemma LinesOfFields(email: string, phone: string, service: string, rest: string)
    requires OneLine("Email: " + email) && OneLine(phone) && OneLine(service)
    ensures Lines(Join("Email: " + email, Join(phone, Join(service, Join("", rest)))))
         == ["Email: " + email, phone, service, ""] + Lines(rest)
  {
    LinesJoinOne("", rest);
    LinesJoinOne(service, Join("", rest));
    LinesJoinOne(phone, Join(service, Join("", rest)));
    LinesJoinOne("Email: " + email, Join(phone, Join(service, Join("", rest))));
  }

  lemma LinesOfHead(name: string, rest: string)
    requires OneLine(Interest) && OneLine("Name: " + name)
    ensures Lines(Join("", Join(Interest, Join("", Join("Name: " + name, rest)))))
         == ["", Interest, "", "Name: " + name] + Lines(rest)
  {
    LinesJoinOne("Name: " + name, rest);
    LinesJoinOne("", Join("Name: " + name, rest));
    LinesJoinOne(Interest, Join("", Join("Name: " + name, rest)));
    LinesJoinOne("", Join(Interest, Join("", Join("Name: " + name, rest))));
  }

  // ---------------------------------------------------------------------
  // The mailto: link

  const MailtoPrefix := "mailto:Laithrazzak@gmail.com?subject="
  const BodyKey := "body="

  /** The link the submit handler opens. It starts with the address and the `subject` key, and the
      encoded values after it hold no `?` and no `#`, so the link has one
      query and no fragment. */
  function MailtoLink(subject: string, body: string): (link: string)
    ensures |link| > |MailtoPrefix| && link[..|MailtoPrefix|] == MailtoPrefix
    ensures forall i :: |MailtoPrefix| <= i < |link| ==> link[i] != '?' && link[i] != '#'
  {
    var q := Query(subject, body);
    QueryHasNoFragment(subject, body);
    assert forall i :: |MailtoPrefix| <= i < |MailtoPrefix| + |q| ==> (MailtoPrefix + q)[i] == q[i - |MailtoPrefix|];
    MailtoPrefix + q
  }

  lemma QueryHasNoFragment(subject: string, body: string)
    ensures forall i :: 0 <= i < |Query(subject, body)| ==> Query(subject, body)[i] != '?' && Query(subject, body)[i] != '#'
  {
    var es, eb := EncodeURIComponent(subject), EncodeURIComponent(body);
    var head := es + "&" + BodyKey;
    assert forall i :: 0 <= i < |head| ==> head[i] != '?' && head[i] != '#' by {
      forall i | 0 <= i < |head| ensures head[i] != '?' && head[i] != '#' {
        if i < |es| {
          assert head[i] == es[i];
        }
      }
    }
    assert Query(subject, body) == head + eb;
  }

  /** The part of the link after `subject=`. */
  function Query(subject: string, body: string): string {
    EncodeURIComponent(subject) + "&" + BodyKey + EncodeURIComponent(body)
  }

  /** How a mail client reads such a link: the text after the `subject=`
      key up to the first `&`, and the text after `body=`, each
      percent-decoded. */
  function ParseMailto(link: string): Option<(string, string)> {
    if |link| < |MailtoPrefix| || link[..|MailtoPrefix|] != MailtoPrefix then None
    else ParseQuery(link[|MailtoPrefix|..])
  }

  function ParseQuery(query: string): Option<(string, string)> {
    var k := IndexOf(query, '&');
    if k == |query| then None
    else
      var rest := query[k + 1..];
      if |rest| < |BodyKey| || rest[..|BodyKey|] != BodyKey then None
      else match (DecodeURIComponent(query[..k]), DecodeURIComponent(rest[|BodyKey|..]))
        case (Some(subject), Some(body)) => Some((subject, body))
        case _ => None
  }

  /** In the query, the first `&` is the one after the encoded subject. */
  lemma QuerySplit(es: string, eb: string)
    requires forall i :: 0 <= i < |es| ==> es[i] != '&'
    ensures var query := es + "&" + BodyKey + eb;
      && IndexOf(query, '&') == |es|
      && query[..|es|] == es && query[|es| + 1..] == BodyKey + eb
  {
    var query := es + "&" + BodyKey + eb;
    assert query[|es|] == '&';
    assert query[..|es|] == es;
    assert query[|es| + 1..] == BodyKey + eb;
  }

  lemma BodyKeySplit(eb: string)
    ensures var rest := BodyKey + eb; |rest| >= |BodyKey| && rest[..|BodyKey|] == BodyKey && rest[|BodyKey|..] == eb
  {
  }

  /** A query whose subject part has no `&` splits into that part and the
      text after `body=`. */
  lemma ParseQueryOf(es: string, eb: string, subject: string, body: string)
    requires forall i :: 0 <= i < |es| ==> es[i] != '&'
    requires DecodeURIComponent(es) == Some(subject) && DecodeURIComponent(eb) == Some(body)
    ensures ParseQuery(es + "&" + BodyKey + eb) == Some((subject, body))
  {
    QuerySplit(es, eb);
    BodyKeySplit(eb);
  }

  /** The query reads back as the subject and the body: the encoded
      subject holds no `&`, so the body key is found right after it. */
  lemma QueryRoundTrip(subject: string, body: string)
    ensures ParseQuery(Query(subject, body)) == Some((subject, body))
  {
    DecodeEncode(subject);
    DecodeEncode(body);
    ParseQueryOf(EncodeURIComponent(subject), EncodeURIComponent(body), subject, body);
  }

  /** The link carries the subject and the body unchanged. */
  lemma MailtoRoundTrip(subject: string, body: string)
    ensures ParseMailto(MailtoLink(subject, body)) == Some((subject, body))
  {
    var query := Query(subject, body);
    var link := MailtoPrefix + query;
    assert link[..|MailtoPrefix|] == MailtoPrefix;
    assert link[|MailtoPrefix|..] == query;
    QueryRoundTrip(subject, body);
  }

  /** `onSubmit` behind the resolver: nothing without valid data, and
      otherwise a link from which the subject and the body read back. */
  function Submit(f: ContactForm, isEmail: string -> bool): (r: Option<string>)
    ensures r.Some? <==> Accepts(f, isEmail)
    ensures r.Some? ==> ParseMailto(r.value) == Some((Subject(f), Body(f)))
  {
    if Accepts(f, isEmail) then
      MailtoRoundTrip(Subject(f), Body(f));
      Some(MailtoLink(Subject(f), Body(f)))
    else None
  }

  /** A service picked in the selector gives one `Preferred Service: `
      line naming it. */
  lemma SelectedServiceLine(f: ContactForm)
    requires f.service in ServiceOptions
    ensures Lines(OptionalLine("Preferred Service: ", f.service)) == ["Preferred Service: " + f.service]
  {
    LinesOne("Preferred Service: " + f.service);
  }
}
