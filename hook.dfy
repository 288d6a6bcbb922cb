/**
 * The options normaliser of the TypeScript widget (src/hook.ts).
 *
 * `show(opts)` takes a loosely typed options bag, checks each of the five
 * fields on its own, keeps the fields that pass and replaces the others by a
 * fixed default, then dispatches one `add` action carrying the record.
 */
module Hook {
  import opened Wrappers

  /** The four severities of the `MsgType` string union. */
  datatype MsgType = Info | Success | Warning | Error {
    /** The string the source uses for this severity. */
    function Name(): string {
      match this
      case Info => "info"
      case Success => "success"
      case Warning => "warning"
      case Error => "error"
    }
  }

  /** The array literal the source searches with `includes`. */
  const TypeNames: seq<string> := ["info", "success", "warning", "error"]

  /** Reads a severity from its string: `TypeNames.includes(s)`, with the matching value. */
  function ParseType(s: string): (r: Option<MsgType>)
    ensures r.Some? <==> s in TypeNames
    ensures r.Some? ==> r.value.Name() == s
  {
    if s == "info" then Some(Info)
    else if s == "success" then Some(Success)
    else if s == "warning" then Some(Warning)
    else if s == "error" then Some(Error)
    else None
  }

  /** A queued message. `kind` is the source's `type` field (a reserved word here). */
  datatype Msg = Msg(top: real, duration: real, content: string, kind: MsgType, fontSize: real)

  /** A property of the options bag as a script sees it: absent, a number, a string, or anything else. */
  datatype Value = Undefined | Num(n: real) | Str(s: string) | Other

  /** The options bag `Partial<Msg>`, each field untrusted. */
  datatype Opts = Opts(top: Value, duration: Value, content: Value, kind: Value, fontSize: Value)

  /** The argument of `show`: left out altogether, or an options bag. */
  datatype Arg = Omitted | Given(opts: Opts)

  /** The empty bag `{}`. */
  const NoOpts: Opts := Opts(Undefined, Undefined, Undefined, Undefined, Undefined)

  /** The parameter default `msg: MsgOpts = {}`. */
  function OptsOf(arg: Arg): (r: Opts)
    ensures arg.Omitted? ==> r == NoOpts
  {
    if arg.Given? then arg.opts else NoOpts
  }

  // The five field constraints.
  predicate TopOk(x: real) { x >= 50.0 }
  predicate DurationOk(x: real) { 0.5 <= x <= 4.5 }
  predicate ContentOk(s: string) { |s| <= 50 }
  predicate FontSizeOk(x: real) { x > 0.0 }

  /** A record every field of which meets its constraint (the severity is one of four by its type). */
  predicate ValidMsg(m: Msg) {
    TopOk(m.top) && DurationOk(m.duration) && ContentOk(m.content) && FontSizeOk(m.fontSize)
  }

  const DefaultTop: real := 100.0
  const DefaultDuration: real := 1.5
  const DefaultFontSize: real := 1.0

  /** The `defaultMsg` record of the TypeScript version. */
  const DefaultMsg: Msg := Msg(DefaultTop, DefaultDuration, "please enter", Info, DefaultFontSize)

  // Each field's check, as the `typeof … && …` conditions that set the availability flags.
  predicate TopAvailable(v: Value) { v.Num? && TopOk(v.n) }
  predicate DurationAvailable(v: Value) { v.Num? && DurationOk(v.n) }
  predicate ContentAvailable(v: Value) { v.Str? && ContentOk(v.s) }
  predicate TypeAvailable(v: Value) { v.Str? && ParseType(v.s).Some? }
  predicate FontSizeAvailable(v: Value) { v.Num? && FontSizeOk(v.n) }

  /**
   * `getValidatedMsg`: the result is always a valid record; each of its fields is either the
   * given value or that field's default, and a given number (string) is kept exactly when it
   * meets its constraint. Since every default is itself valid, a kept value and a replaced one
   * can never be confused.
   */
  function GetValidatedMsg(arg: Arg): (r: Msg)
    ensures ValidMsg(r)
    ensures var v := OptsOf(arg).top;
      (v.Num? ==> (r.top == v.n <==> TopOk(v.n))) && (r.top == DefaultTop || (v.Num? && r.top == v.n))
    ensures var v := OptsOf(arg).duration;
      (v.Num? ==> (r.duration == v.n <==> DurationOk(v.n)))
      && (r.duration == DefaultDuration || (v.Num? && r.duration == v.n))
    ensures var v := OptsOf(arg).content;
      (v.Str? ==> (r.content == v.s <==> ContentOk(v.s)))
      && (r.content == DefaultMsg.content || (v.Str? && r.content == v.s))
    ensures var v := OptsOf(arg).kind;
      (v.Str? ==> (r.kind.Name() == v.s <==> v.s in TypeNames))
      && (r.kind == Info || (v.Str? && r.kind.Name() == v.s))
    ensures var v := OptsOf(arg).fontSize;
      (v.Num? ==> (r.fontSize == v.n <==> FontSizeOk(v.n)))
      && (r.fontSize == DefaultFontSize || (v.Num? && r.fontSize == v.n))
  {
    var o := OptsOf(arg);
    var isTopAvailable := TopAvailable(o.top);
    var isDurationAvailable := DurationAvailable(o.duration);
    var isContentAvailable := ContentAvailable(o.content);
    var isTypeAvailable := TypeAvailable(o.kind);
    var isFontSizeAvailable := FontSizeAvailable(o.fontSize);
    Msg(
      if isTopAvailable then o.top.n else DefaultMsg.top,
      if isDurationAvailable then o.duration.n else DefaultMsg.duration,
      if isContentAvailable then o.content.s else DefaultMsg.content,
      if isTypeAvailable then ParseType(o.kind.s).value else DefaultMsg.kind,
      if isFontSizeAvailable then o.fontSize.n else DefaultMsg.fontSize)
  }

  /** The two actions of the queue reducer (`MsgAction`). */
  datatype Action = Add(payload: Msg) | Reset

  /** `useMessage().show`: the one action it dispatches, an `add` of the normalised record. */
  function Show(arg: Arg): (a: Action)
    ensures a.Add? && ValidMsg(a.payload)
    ensures a.payload == GetValidatedMsg(arg)
  {
    Add(GetValidatedMsg(arg))
  }

  /** The options bag that spells out a record field by field. */
  function AsOpts(m: Msg): (r: Opts) {
    Opts(Num(m.top), Num(m.duration), Str(m.content), Str(m.kind.Name()), Num(m.fontSize))
  }

  /** Leaving the argument out, or giving `{}`, yields exactly the default record. */
  lemma OmittedYieldsDefault()
    ensures GetValidatedMsg(Omitted) == DefaultMsg
    ensures GetValidatedMsg(Given(NoOpts)) == DefaultMsg
  {
  }

  /** Each output field depends on its own input field only. */
  lemma FieldsIndependent(a: Arg, b: Arg)
    ensures OptsOf(a).top == OptsOf(b).top ==> GetValidatedMsg(a).top == GetValidatedMsg(b).top
    ensures OptsOf(a).duration == OptsOf(b).duration ==> GetValidatedMsg(a).duration == GetValidatedMsg(b).duration
    ensures OptsOf(a).content == OptsOf(b).content ==> GetValidatedMsg(a).content == GetValidatedMsg(b).content
    ensures OptsOf(a).kind == OptsOf(b).kind ==> GetValidatedMsg(a).kind == GetValidatedMsg(b).kind
    ensures OptsOf(a).fontSize == OptsOf(b).fontSize ==> GetValidatedMsg(a).fontSize == GetValidatedMsg(b).fontSize
  {
  }

  /** Every severity's name reads back as that severity. */
  lemma ParseName(k: MsgType)
    ensures ParseType(k.Name()) == Some(k)
  {
    match k
    case Info =>
    case Success =>
    case Warning =>
    case Error =>
  }

  /** A record passes through the normaliser unchanged exactly when it is valid. */
  lemma FixedPointIffValid(m: Msg)
    ensures GetValidatedMsg(Given(AsOpts(m))) == m <==> ValidMsg(m)
  {
    ParseName(m.kind);
  }

  /** Normalising an already normalised record returns it unchanged. */
  lemma NormaliseIdempotent(arg: Arg)
    ensures var m := GetValidatedMsg(arg); GetValidatedMsg(Given(AsOpts(m))) == m
  {
    FixedPointIffValid(GetValidatedMsg(arg));
  }

  /** A fully valid bag is queued exactly as given. */
  lemma ShowValidOptions()
    ensures Show(Given(Opts(Num(60.0), Num(1.0), Str("ok"), Str("success"), Num(1.0))))
         == Add(Msg(60.0, 1.0, "ok", Success, 1.0))
  {
  }

  /** A `top` below 50 is replaced by 100, and the unspecified fields take their defaults. */
  lemma ShowTopTooSmall()
    ensures Show(Given(NoOpts.(top := Num(10.0)))) == Add(DefaultMsg)
  {
  }
}
