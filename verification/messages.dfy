/** One diagnostic (`Message`), its narrow equality, and its construction
    from one regex match (`TryFrom<&Captures>`). */
module Messages {
  import opened Wrappers
  import opened Decimal
  import opened Strings

  /** Half-open byte range `[start, end)` of a whole match. */
  datatype Span = Span(start: nat, end: nat)

  /** One regex match as the conversion sees it: the text of every named
      group that took part in the match (a group that is absent from the
      pattern or did not participate has no entry), and the span of group 0. */
  datatype RawCaptures = RawCaptures(groups: map<string, string>, whole: Span)

  /** The regex engine never reports a match that ends before it starts. */
  type Captures = c: RawCaptures | c.whole.start <= c.whole.end
    witness RawCaptures(map[], Span(0, 0))

  datatype Message = Message(
    isError: bool,
    msg: string,
    file: string,
    line: Option<nat>,
    column: Option<nat>,
    span: Span)

  /** Why one match could not become a message. The source unwraps here and
      panics; the model returns the failure instead. */
  datatype ConvError =
    | MissingGroup(name: string)
    | MalformedNumber(name: string, text: string)

  /** The part of a message that equality looks at. */
  function Key(m: Message): (Span, Option<nat>, Option<nat>) {
    (m.span, m.line, m.column)
  }

  /** `PartialEq::eq`: compares span, line and column and nothing else. */
  function Equal(a: Message, b: Message): (r: bool)
    ensures r <==> Key(a) == Key(b)
  {
    a.span == b.span && a.line == b.line && a.column == b.column
  }

  /** Equality is an equivalence relation. */
  lemma EqualIsEquivalence()
    ensures forall a :: Equal(a, a)
    ensures forall a, b :: Equal(a, b) ==> Equal(b, a)
    ensures forall a, b, c :: Equal(a, b) && Equal(b, c) ==> Equal(a, c)
  {
  }

  /** Severity, text and file never affect equality. */
  lemma EqualIgnoresText(m: Message, isError: bool, msg: string, file: string)
    ensures Equal(m, m.(isError := isError, msg := msg, file := file))
  {
  }

  /** True when the `type` capture lower-cases to `error`. */
  predicate IsErrorWord(t: string) {
    Lower(t) == "error"
  }

  /** The severity rule: a `type` capture reading `error` in any case, or a
      `type_error` group that took part in the match, whatever its text. */
  function Severity(groups: map<string, string>): (e: bool)
    ensures "type_error" in groups ==> e
    ensures "type" in groups && IsErrorWord(groups["type"]) ==> e
    ensures e ==> "type_error" in groups || ("type" in groups && IsErrorWord(groups["type"]))
  {
    var typeWord := if "type" in groups then IsErrorWord(groups["type"]) else false;
    var typeError := "type_error" in groups;
    typeWord || typeError
  }

  /** `line` and `col` captures: absent gives `None`, present text must
      parse as a `usize`. */
  function OptionalNumber(groups: map<string, string>, name: string): (r: Result<Option<nat>, ConvError>)
    ensures name !in groups ==> r == Success(None)
    ensures name in groups && ParseUsize(groups[name]).Some? ==> r == Success(ParseUsize(groups[name]))
    ensures name in groups && ParseUsize(groups[name]).None? ==> r == Failure(MalformedNumber(name, groups[name]))
  {
    if name !in groups then Success(None)
    else match ParseUsize(groups[name])
      case Some(n) => Success(Some(n))
      case None => Failure(MalformedNumber(name, groups[name]))
  }

  function RequiredText(groups: map<string, string>, name: string): (r: Result<string, ConvError>)
    ensures r.Success? <==> name in groups
    ensures r.Success? ==> r.value == groups[name]
    ensures r.Failure? ==> r.error == MissingGroup(name)
  {
    if name in groups then Success(groups[name]) else Failure(MissingGroup(name))
  }

  /** The fields are taken in the order the source builds the struct: `msg`,
      `file`, `line`, `col`; the first one that fails decides the error. */
  function FromCaptures(c: Captures): (r: Result<Message, ConvError>)
    ensures r.Success? <==>
      && "msg" in c.groups
      && "file" in c.groups
      && ("line" in c.groups ==> ParseUsize(c.groups["line"]).Some?)
      && ("col" in c.groups ==> ParseUsize(c.groups["col"]).Some?)
    ensures "msg" !in c.groups ==> r == Failure(MissingGroup("msg"))
    ensures "msg" in c.groups && "file" !in c.groups ==> r == Failure(MissingGroup("file"))
    ensures r.Success? ==>
      && r.value.msg == c.groups["msg"]
      && r.value.file == c.groups["file"]
      && (r.value.line.None? <==> "line" !in c.groups)
      && (r.value.line.Some? ==> ParseUsize(c.groups["line"]) == r.value.line)
      && (r.value.column.None? <==> "col" !in c.groups)
      && (r.value.column.Some? ==> ParseUsize(c.groups["col"]) == r.value.column)
      && r.value.span == c.whole
      && r.value.span.start <= r.value.span.end
      && (r.value.isError <==>
            "type_error" in c.groups || ("type" in c.groups && IsErrorWord(c.groups["type"])))
  {
    var isError := Severity(c.groups);
    var msg :- RequiredText(c.groups, "msg");
    var file :- RequiredText(c.groups, "file");
    var line :- OptionalNumber(c.groups, "line");
    var column :- OptionalNumber(c.groups, "col");
    Success(Message(isError, msg, file, line, column, c.whole))
  }

  /** `type` matches `error` in any mix of cases, and nothing else. */
  lemma ErrorWordAnyCase(t: string)
    ensures IsErrorWord(t) <==>
      |t| == 5 && forall i :: 0 <= i < 5 ==> t[i] == "error"[i] || t[i] == "ERROR"[i]
  {
  }

  /** The capture map a message would come from: `type` spelled `error` or
      `warning`, numbers in their canonical decimal form. */
  function CapturesOf(m: Message): Captures
    requires m.span.start <= m.span.end
  {
    var base := map["type" := if m.isError then "error" else "warning", "msg" := m.msg, "file" := m.file];
    var withLine := if m.line.Some? then base["line" := NatToString(m.line.value)] else base;
    var groups := if m.column.Some? then withLine["col" := NatToString(m.column.value)] else withLine;
    RawCaptures(groups, m.span)
  }

  /** Conversion loses nothing: every message whose numbers fit in a `usize`
      is recovered exactly from the captures that describe it. */
  lemma FromCapturesOfMessage(m: Message)
    requires m.span.start <= m.span.end
    requires m.line.Some? ==> m.line.value <= UsizeMax
    requires m.column.Some? ==> m.column.value <= UsizeMax
    ensures FromCaptures(CapturesOf(m)) == Success(m)
  {
    var g := CapturesOf(m).groups;
    assert g["msg"] == m.msg && g["file"] == m.file;
    assert "type_error" !in g;
    assert Severity(g) == m.isError by {
      ErrorWordAnyCase(g["type"]);
      if !m.isError {
        assert g["type"][0] == 'w';
      }
    }
    assert OptionalNumber(g, "line") == Success(m.line) by {
      if m.line.Some? {
        ParseUsizeOfNatToString(m.line.value);
      }
    }
    assert OptionalNumber(g, "col") == Success(m.column) by {
      if m.column.Some? {
        ParseUsizeOfNatToString(m.column.value);
      }
    }
  }

  /** The explicit error marker counts by presence alone, even when empty
      and even when `type` says otherwise. */
  lemma TypeErrorMarkerAlone(msg: string, file: string, whole: Span)
    requires whole.start <= whole.end
    ensures
      var c: Captures := RawCaptures(map["type_error" := "", "type" := "warning", "msg" := msg, "file" := file], whole);
      FromCaptures(c) == Success(Message(true, msg, file, None, None, whole))
  {
  }

  /** A `type` of `warning` without a marker is not an error; neither is a
      match with no `type` at all. */
  lemma NotAnError(msg: string, file: string, whole: Span)
    requires whole.start <= whole.end
    ensures
      var c: Captures := RawCaptures(map["type" := "warning", "msg" := msg, "file" := file], whole);
      FromCaptures(c) == Success(Message(false, msg, file, None, None, whole))
    ensures
      var c: Captures := RawCaptures(map["msg" := msg, "file" := file], whole);
      FromCaptures(c) == Success(Message(false, msg, file, None, None, whole))
  {
    assert !IsErrorWord("warning") by { assert Lower("warning")[0] == 'w'; }
  }

  /** The cargo error sample of the repository: `error` with line 33,
      column 1. */
  lemma CargoErrorExample(c: Captures)
    requires c.groups == map[
      "type" := "error",
      "msg" := "expected one of `!` or `::`, found `<eof>`",
      "file" := "src/groups.rs",
      "line" := "33",
      "col" := "1"]
    ensures FromCaptures(c) == Success(Message(true, "expected one of `!` or `::`, found `<eof>`",
                                               "src/groups.rs", Some(33), Some(1), c.whole))
  {
    assert ParseUsize("33") == Some(33) by {
      assert "33"[..1] == "3" && "3"[..0] == "";
    }
    assert ParseUsize("1") == Some(1) by {
      assert "1"[..0] == "";
    }
    ErrorWordAnyCase("error");
  }
}
