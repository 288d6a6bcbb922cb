/**
 * The options normaliser of the JavaScript widget (src/hook.js).
 *
 * Here `validate` only computes five availability flags, and `show` builds the
 * payload field by field from those flags, reading a field of the options bag
 * only when its flag is raised. The one observable difference from the
 * TypeScript version is the default content.
 */
module HookJs {
  import opened Hook

  /** The `defaultMsg` record of the JavaScript version. */
  const DefaultMsg: Msg := Msg(DefaultTop, DefaultDuration, "请输入内容", Info, DefaultFontSize)

  /** `typeEnum`: the same four names as the TypeScript union. */
  const TypeEnum: seq<string> := TypeNames

  /** The record of five booleans that `validate` returns. */
  datatype Flags = Flags(top: bool, duration: bool, content: bool, kind: bool, fontSize: bool)

  const NoFlags: Flags := Flags(false, false, false, false, false)

  /**
   * `validate({ top, duration, content, type, fontSize } = {})`: each flag says whether its
   * own field passes the same check as in the TypeScript version; with no argument every
   * flag is false, so a raised flag always means the bag was given.
   */
  function Validate(arg: Arg): (f: Flags)
    ensures arg.Omitted? ==> f == NoFlags
    ensures f != NoFlags ==> arg.Given?
    ensures f.top == TopAvailable(OptsOf(arg).top)
    ensures f.duration == DurationAvailable(OptsOf(arg).duration)
    ensures f.content == ContentAvailable(OptsOf(arg).content)
    ensures f.kind == TypeAvailable(OptsOf(arg).kind)
    ensures f.fontSize == FontSizeAvailable(OptsOf(arg).fontSize)
  {
    var o := OptsOf(arg);
    Flags(
      o.top.Num? && o.top.n >= 50.0,
      o.duration.Num? && o.duration.n >= 0.5 && o.duration.n <= 4.5,
      o.content.Str? && |o.content.s| <= 50,
      o.kind.Str? && o.kind.s in TypeEnum,
      o.fontSize.Num? && o.fontSize.n > 0.0)
  }

  /**
   * The payload that `show` builds: a field of `opts` is read only under its raised flag,
   * otherwise the default is taken. The result is always valid; each field is the given
   * value or its default, and a given number (string) is kept exactly when it is valid.
   */
  function Payload(arg: Arg): (m: Msg)
    ensures ValidMsg(m)
    ensures var v := OptsOf(arg).top;
      (v.Num? ==> (m.top == v.n <==> TopOk(v.n))) && (m.top == DefaultTop || (v.Num? && m.top == v.n))
    ensures var v := OptsOf(arg).duration;
      (v.Num? ==> (m.duration == v.n <==> DurationOk(v.n)))
      && (m.duration == DefaultDuration || (v.Num? && m.duration == v.n))
    ensures var v := OptsOf(arg).content;
      (v.Str? ==> (m.content == v.s <==> ContentOk(v.s)))
      && (m.content == DefaultMsg.content || (v.Str? && m.content == v.s))
    ensures var v := OptsOf(arg).kind;
      (v.Str? ==> (m.kind.Name() == v.s <==> v.s in TypeEnum))
      && (m.kind == Info || (v.Str? && m.kind.Name() == v.s))
    ensures var v := OptsOf(arg).fontSize;
      (v.Num? ==> (m.fontSize == v.n <==> FontSizeOk(v.n)))
      && (m.fontSize == DefaultFontSize || (v.Num? && m.fontSize == v.n))
  {
    var result := Validate(arg);
    Msg(
      if result.top then arg.opts.top.n else DefaultMsg.top,
      if result.duration then arg.opts.duration.n else DefaultMsg.duration,
      if result.content then arg.opts.content.s else DefaultMsg.content,
      if result.kind then ParseType(arg.opts.kind.s).value else DefaultMsg.kind,
      if result.fontSize then arg.opts.fontSize.n else DefaultMsg.fontSize)
  }

  /** `useMessage().show`: one `add` action carrying the payload. */
  function Show(arg: Arg): (a: Action)
    ensures a.Add? && ValidMsg(a.payload)
    ensures a.payload == Payload(arg)
  {
    Add(Payload(arg))
  }

  /** With no argument every flag is false and the payload is exactly `defaultMsg`. */
  lemma OmittedYieldsDefault()
    ensures Validate(Omitted) == NoFlags
    ensures Payload(Omitted) == DefaultMsg
    ensures Payload(Omitted).content == "请输入内容"
  {
  }

  /** Each flag depends on its own field only. */
  lemma FlagsIndependent(a: Opts, b: Opts)
    ensures a.top == b.top ==> Validate(Given(a)).top == Validate(Given(b)).top
    ensures a.duration == b.duration ==> Validate(Given(a)).duration == Validate(Given(b)).duration
    ensures a.content == b.content ==> Validate(Given(a)).content == Validate(Given(b)).content
    ensures a.kind == b.kind ==> Validate(Given(a)).kind == Validate(Given(b)).kind
    ensures a.fontSize == b.fontSize ==> Validate(Given(a)).fontSize == Validate(Given(b)).fontSize
  {
  }

  /** Re-normalising a payload returns it unchanged. */
  lemma NormaliseIdempotent(arg: Arg)
    ensures var m := Payload(arg); Payload(Given(AsOpts(m))) == m
  {
    ParseName(Payload(arg).kind);
  }

  /**
   * The two versions agree on every input except in the default content: the JavaScript
   * payload is the TypeScript record, with `'请输入内容'` wherever that record fell back to
   * `'please enter'`.
   */
  lemma AgreesWithTypeScript(arg: Arg)
    ensures var t := GetValidatedMsg(arg);
      Payload(arg) == if ContentAvailable(OptsOf(arg).content) then t else t.(content := DefaultMsg.content)
  {
  }
}
