/** E-mail templates: substitution of `{{name}}` placeholders, one pass per variable. */
module EmailTemplates {
  import opened Options
  import opened Text

  // ── Substitution ───────────────────────────────────────────────────────────

  type Variable = (string, string)

  function PlaceholderText(key: string): (text: string)
    ensures |text| == |key| + 4
  {
    "{{" + key + "}}"
  }

  /** One replacement pass per variable, in the order given. */
  function Substituted(s: string, vars: seq<Variable>): string
    decreases |vars|
  {
    if vars == [] then s
    else Substituted(Replace(s, PlaceholderText(vars[0].0), vars[0].1), vars[1..])
  }

  method SubstituteStr(s: string, vars: seq<Variable>) returns (out: string)
    ensures out == Substituted(s, vars)
  {
    out := s;
    for i := 0 to |vars|
      invariant Substituted(out, vars[i..]) == Substituted(s, vars)
    {
      assert vars[i..][1..] == vars[i + 1..];
      out := Replace(out, PlaceholderText(vars[i].0), vars[i].1);
    }
  }

  datatype EmailTemplate = EmailTemplate(subject: string, bodyPlain: string, bodyHtml: Option<string>)

  datatype Message = Message(subject: string, plain: string, html: string)

  /** Fills all parts of a template; the HTML part is derived from the plain one if there is none. */
  function Substitute(t: EmailTemplate, vars: seq<Variable>): Message {
    var plain := Substituted(t.bodyPlain, vars);
    Message(
      Substituted(t.subject, vars), plain,
      match t.bodyHtml
      case Some(h) => Substituted(h, vars)
      case None => "<html><body><pre>" + Replace(plain, "\n", "<br>") + "</pre></body></html>")
  }

  // ── Templates as literals and placeholders ─────────────────────────────────

  datatype Segment = Literal(text: string) | Placeholder(key: string)

  function SegmentText(s: Segment): string {
    match s
    case Literal(text) => text
    case Placeholder(key) => PlaceholderText(key)
  }

  function Render(segments: seq<Segment>): string {
    if segments == [] then [] else SegmentText(segments[0]) + Render(segments[1..])
  }

  predicate BraceFree(s: string) {
    '{' !in s && '}' !in s
  }

  /** The value bound to a name; the first binding counts. */
  function Lookup(vars: seq<Variable>, key: string): Option<string> {
    if vars == [] then None
    else if vars[0].0 == key then Some(vars[0].1)
    else Lookup(vars[1..], key)
  }

  /** Every bound placeholder becomes its value, all at once; values are not looked at again. */
  function Filled(segments: seq<Segment>, vars: seq<Variable>): seq<Segment> {
    if segments == [] then []
    else
      var head := segments[0];
      var filled :=
        if head.Placeholder? && Lookup(vars, head.key).Some? then Literal(Lookup(vars, head.key).value)
        else head;
      [filled] + Filled(segments[1..], vars)
  }
}
