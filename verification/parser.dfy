/** `MessageParser`: the ordered list of compiled patterns and the stream
    position that every reported span is shifted by. The regex engine is a
    parameter: `Compiler` stands for `Regex::new` and `Matcher` for
    `Regex::captures_iter`. */
module Parser {
  import opened Wrappers
  import opened Messages
  import opened Strings

  /** A compiled pattern; the model keeps only the text it was built from. */
  datatype Regex = Regex(source: string)

  /** Whether `Regex::new` accepts a pattern text. */
  type Compiler = string -> bool

  /** All successive matches of a compiled pattern in an input, in the order
      the engine's iterator yields them. */
  type Matcher = (Regex, string) -> seq<Captures>

  datatype MessageParser = MessageParser(position: nat, patterns: seq<Regex>)

  /** `new` fails naming the pattern that did not compile. */
  datatype ParserError = CompileFailed(pattern: string)

  /** The lists, one after another, in order. */
  function Flatten<T>(xss: seq<seq<T>>): seq<T> {
    if xss == [] then [] else Flatten(xss[..|xss| - 1]) + xss[|xss| - 1]
  }

  /** Number of elements that come from the lists before list `i`. */
  function Before<T>(xss: seq<seq<T>>, i: nat): nat
    requires i <= |xss|
  {
    |Flatten(xss[..i])|
  }

  lemma FlattenSnoc<T>(xss: seq<seq<T>>, i: nat)
    requires i < |xss|
    ensures Flatten(xss[..i + 1]) == Flatten(xss[..i]) + xss[i]
  {
    assert xss[..i + 1][..i] == xss[..i];
  }

  /** The flattening of the first `m` lists is a prefix of the whole. */
  lemma {:induction false} FlattenPrefixOf<T>(xss: seq<seq<T>>, m: nat)
    requires m <= |xss|
    ensures |Flatten(xss[..m])| <= |Flatten(xss)|
    ensures Flatten(xss)[..|Flatten(xss[..m])|] == Flatten(xss[..m])
    decreases |xss|
  {
    if m == |xss| {
      assert xss[..m] == xss;
    } else {
      var init := xss[..|xss| - 1];
      assert init[..m] == xss[..m];
      FlattenPrefixOf(init, m);
    }
  }

  /** Element `j` of list `i` sits at `Before(xss, i) + j` in the flattening,
      and everything before it is the lists before `i` and the first `j`
      elements of list `i`. */
  lemma FlattenPosition<T>(xss: seq<seq<T>>, i: nat, j: nat)
    requires i < |xss| && j < |xss[i]|
    ensures Before(xss, i) + j < |Flatten(xss)|
    ensures Flatten(xss)[Before(xss, i) + j] == xss[i][j]
    ensures Flatten(xss)[..Before(xss, i) + j] == Flatten(xss[..i]) + xss[i][..j]
  {
    FlattenSnoc(xss, i);
    FlattenPrefixOf(xss, i + 1);
    var whole := Flatten(xss);
    var upto := Flatten(xss[..i]) + xss[i];
    assert whole[..|upto|] == upto;
    assert whole[Before(xss, i) + j] == upto[Before(xss, i) + j];
    assert whole[..Before(xss, i) + j] == upto[..Before(xss, i) + j];
  }

  /** Output ordering: every element of list `i` precedes every element of a
      later list `k`. */
  lemma {:induction false} BeforeMonotone<T>(xss: seq<seq<T>>, i: nat, k: nat)
    requires i < k <= |xss|
    ensures Before(xss, i) + |xss[i]| <= Before(xss, k)
    decreases k - i
  {
    FlattenSnoc(xss, i);
    if i + 1 < k {
      BeforeMonotone(xss, i + 1, k);
    }
  }

  /** Patterns as `Regex::new` builds them, one per text, in order. */
  function Compiled(texts: seq<string>): (rs: seq<Regex>)
    ensures |rs| == |texts|
  {
    seq(|texts|, k requires 0 <= k < |texts| => Regex(texts[k]))
  }

  /** `MessageParser::new`: compiles every pattern of every group, group by
      group, stopping at the first that fails; a new parser starts at 0. */
  method New(groups: seq<seq<string>>, compiles: Compiler) returns (r: Result<MessageParser, ParserError>)
    ensures r.Success? <==> forall k :: 0 <= k < |Flatten(groups)| ==> compiles(Flatten(groups)[k])
    ensures r.Success? ==> r.value.position == 0 && r.value.patterns == Compiled(Flatten(groups))
    ensures r.Failure? ==>
      exists k :: 0 <= k < |Flatten(groups)|
        && !compiles(Flatten(groups)[k])
        && r.error == CompileFailed(Flatten(groups)[k])
        && forall j :: 0 <= j < k ==> compiles(Flatten(groups)[j])
  {
    var patterns: seq<Regex> := [];
    ghost var done: seq<string> := [];
    for i := 0 to |groups|
      invariant done == Flatten(groups[..i])
      invariant patterns == Compiled(done)
      invariant forall k :: 0 <= k < |done| ==> compiles(done[k])
    {
      for j := 0 to |groups[i]|
        invariant done == Flatten(groups[..i]) + groups[i][..j]
        invariant patterns == Compiled(done)
        invariant forall k :: 0 <= k < |done| ==> compiles(done[k])
      {
        var pat := groups[i][j];
        FlattenPosition(groups, i, j);
        if !compiles(pat) {
          assert Flatten(groups)[|done|] == pat;
          return Failure(CompileFailed(pat));
        }
        patterns := patterns + [Regex(pat)];
        done := done + [pat];
        assert groups[i][..j + 1] == groups[i][..j] + [groups[i][j]];
      }
      FlattenSnoc(groups, i);
      assert groups[i][..|groups[i]|] == groups[i];
    }
    assert groups[..|groups|] == groups;
    return Success(MessageParser(0, patterns));
  }

  /** The matches `parse` visits: those of the first pattern, then those of
      the second, and so on. */
  function MatchLists(p: MessageParser, input: string, matches: Matcher): (lists: seq<seq<Captures>>)
    ensures |lists| == |p.patterns|
  {
    seq(|p.patterns|, i requires 0 <= i < |p.patterns| => matches(p.patterns[i], input))
  }

  function AllMatches(p: MessageParser, input: string, matches: Matcher): seq<Captures> {
    Flatten(MatchLists(p, input, matches))
  }

  /** A message moved `offset` bytes further into the stream. */
  function Shift(m: Message, offset: nat): Message {
    m.(span := Span(m.span.start + offset, m.span.end + offset))
  }

  /** `r` is what converting `all` in order yields at stream position
      `position`: either every match converted and the messages are those
      conversions shifted by `position`, one per match and in match order,
      or the error is that of the first match that did not convert. */
  ghost predicate ConvertsTo(all: seq<Captures>, position: nat, r: Result<seq<Message>, ConvError>) {
    match r
    case Success(ms) =>
      && |ms| == |all|
      && forall k :: 0 <= k < |all| ==>
           FromCaptures(all[k]).Success? && ms[k] == Shift(FromCaptures(all[k]).value, position)
    case Failure(e) =>
      exists k :: 0 <= k < |all|
        && FromCaptures(all[k]) == Failure(e)
        && forall j :: 0 <= j < k ==> FromCaptures(all[j]).Success?
  }

  /** `MessageParser::parse`: every match of every pattern, pattern by
      pattern, becomes a message whose span is shifted by the current
      position; one match that fails to convert fails the whole call. */
  method Parse(p: MessageParser, input: string, matches: Matcher) returns (r: Result<seq<Message>, ConvError>)
    ensures ConvertsTo(AllMatches(p, input, matches), p.position, r)
    ensures r.Success? ==> |r.value| == |AllMatches(p, input, matches)|
    ensures r.Success? ==> forall k :: 0 <= k < |r.value| ==>
      var raw := AllMatches(p, input, matches)[k].whole;
      && r.value[k].span == Span(raw.start + p.position, raw.end + p.position)
      && r.value[k].span.end - r.value[k].span.start == raw.end - raw.start
  {
    ghost var lists := MatchLists(p, input, matches);
    var messages: seq<Message> := [];
    ghost var done: seq<Captures> := [];
    for i := 0 to |p.patterns|
      invariant done == Flatten(lists[..i])
      invariant |messages| == |done|
      invariant forall k :: 0 <= k < |done| ==>
        FromCaptures(done[k]).Success? && messages[k] == Shift(FromCaptures(done[k]).value, p.position)
    {
      var captures := matches(p.patterns[i], input);
      for j := 0 to |captures|
        invariant done == Flatten(lists[..i]) + captures[..j]
        invariant |messages| == |done|
        invariant forall k :: 0 <= k < |done| ==>
          FromCaptures(done[k]).Success? && messages[k] == Shift(FromCaptures(done[k]).value, p.position)
      {
        FlattenPosition(lists, i, j);
        var msg :- FromCaptures(captures[j]);
        msg := msg.(span := Span(msg.span.start + p.position, msg.span.end + p.position));
        messages := messages + [msg];
        done := done + [captures[j]];
        assert captures[..j + 1] == captures[..j] + [captures[j]];
      }
      FlattenSnoc(lists, i);
      assert captures[..|captures|] == captures;
    }
    assert lists[..|lists|] == lists;
    return Success(messages);
  }

  /** `MessageParser::advance`: moves the position by exactly `amount` and
      keeps the patterns. */
  function Advance(p: MessageParser, amount: nat): (q: MessageParser)
    ensures q.position == p.position + amount
    ensures q.patterns == p.patterns
  {
    p.(position := p.position + amount)
  }

  /** `parse` has one possible outcome per input: calling it again on the
      same parser and input cannot give anything else. */
  lemma ConvertsToUnique(all: seq<Captures>, position: nat, r1: Result<seq<Message>, ConvError>, r2: Result<seq<Message>, ConvError>)
    requires ConvertsTo(all, position, r1) && ConvertsTo(all, position, r2)
    ensures r1 == r2
  {
    if r1.Failure? && r2.Failure? {
      var k1 :| 0 <= k1 < |all| && FromCaptures(all[k1]) == Failure(r1.error)
                && forall j :: 0 <= j < k1 ==> FromCaptures(all[j]).Success?;
      var k2 :| 0 <= k2 < |all| && FromCaptures(all[k2]) == Failure(r2.error)
                && forall j :: 0 <= j < k2 ==> FromCaptures(all[j]).Success?;
      assert !(k1 < k2) && !(k2 < k1);
    } else if r1.Success? && r2.Success? {
      assert r1.value == r2.value;
    }
  }

  /** Parsing leaves the parser as it was, so two parses of one input agree. */
  method ParseTwice(p: MessageParser, input: string, matches: Matcher)
    returns (first: Result<seq<Message>, ConvError>, second: Result<seq<Message>, ConvError>)
    ensures first == second
  {
    first := Parse(p, input, matches);
    second := Parse(p, input, matches);
    ConvertsToUnique(AllMatches(p, input, matches), p.position, first, second);
  }

  /** Output order: the message of match `k` of pattern `i` is at index
      `Before(lists, i) + k`, after all messages of earlier patterns and
      before all messages of later ones. */
  lemma ParseOrder(p: MessageParser, input: string, matches: Matcher, ms: seq<Message>, i: nat, k: nat)
    requires ConvertsTo(AllMatches(p, input, matches), p.position, Success(ms))
    requires i < |p.patterns| && k < |matches(p.patterns[i], input)|
    ensures Before(MatchLists(p, input, matches), i) + k < |ms|
    ensures
      var c := matches(p.patterns[i], input)[k];
      FromCaptures(c).Success? &&
      ms[Before(MatchLists(p, input, matches), i) + k] == Shift(FromCaptures(c).value, p.position)
    ensures forall i' :: i < i' < |p.patterns| ==>
      Before(MatchLists(p, input, matches), i) + k < Before(MatchLists(p, input, matches), i')
  {
    var lists := MatchLists(p, input, matches);
    FlattenPosition(lists, i, k);
    forall i' | i < i' < |p.patterns|
      ensures Before(lists, i) + k < Before(lists, i')
    {
      BeforeMonotone(lists, i, i');
    }
  }

  /** Without failures there is one message per match: as many as all the
      patterns' matches together. */
  lemma {:induction false} FlattenLength<T>(xss: seq<seq<T>>)
    ensures |Flatten(xss)| == TotalLength(xss)
  {
    if xss != [] {
      FlattenLength(xss[..|xss| - 1]);
      TotalLengthSnoc(xss[..|xss| - 1], xss[|xss| - 1]);
      assert xss[..|xss| - 1] + [xss[|xss| - 1]] == xss;
    }
  }

  function TotalLength<T>(xss: seq<seq<T>>): nat {
    if xss == [] then 0 else |xss[0]| + TotalLength(xss[1..])
  }

  lemma {:induction false} TotalLengthSnoc<T>(xss: seq<seq<T>>, xs: seq<T>)
    ensures TotalLength(xss + [xs]) == TotalLength(xss) + |xs|
  {
    if xss != [] {
      assert (xss + [xs])[1..] == xss[1..] + [xs];
      TotalLengthSnoc(xss[1..], xs);
    }
  }

  /** Parsing after `advance(n)` reports the same outcome with every span
      moved `n` bytes further. */
  lemma AdvanceShiftsParse(p: MessageParser, input: string, matches: Matcher, n: nat, ms: seq<Message>)
    requires ConvertsTo(AllMatches(p, input, matches), p.position, Success(ms))
    ensures ConvertsTo(AllMatches(Advance(p, n), input, matches), p.position + n,
                       Success(seq(|ms|, k requires 0 <= k < |ms| => Shift(ms[k], n))))
  {
  }

  /** A failed parse fails the same way at any position. */
  lemma FailureIgnoresPosition(all: seq<Captures>, position: nat, other: nat, e: ConvError)
    requires ConvertsTo(all, position, Failure(e))
    ensures ConvertsTo(all, other, Failure(e))
  {
  }

  /** Spans stay inside the text handed to `parse`, shifted by the position,
      when the engine reports matches inside that text. Offsets are byte
      offsets, so the bound is the text's UTF-8 length. */
  lemma SpansWithinInput(p: MessageParser, input: string, matches: Matcher, ms: seq<Message>)
    requires ConvertsTo(AllMatches(p, input, matches), p.position, Success(ms))
    requires forall c :: c in AllMatches(p, input, matches) ==> c.whole.end <= Utf8Length(input)
    ensures forall k :: 0 <= k < |ms| ==>
      p.position <= ms[k].span.start <= ms[k].span.end <= p.position + Utf8Length(input)
  {
  }

  /** A parser without patterns finds nothing. */
  lemma NoPatternsNoMessages(position: nat, input: string, matches: Matcher, r: Result<seq<Message>, ConvError>)
    requires ConvertsTo(AllMatches(MessageParser(position, []), input, matches), position, r)
    ensures r == Success([])
  {
  }
}
