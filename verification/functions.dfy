/** The function records of a file: which function-like nodes are
    recorded, under which name, and what their first JSDoc block says. */
module Functions {
  import opened Strings
  import opened Seqs
  import opened Records
  import opened Syntax
  import opened Tags

  /** The name a function is recorded under: its own name when it has a
      non-empty one, otherwise the name the caller offers (`""` when none). */
  function ChooseName(ownName: Option<string>, fallback: string): string {
    if ownName.Some? && ownName.value != [] then ownName.value else fallback
  }

  /** `captured || comment || undefined`. */
  function OrComment(captured: Option<string>, comment: string): (r: Option<string>)
    requires captured.Some? ==> captured.value != []
    ensures r.Some? ==> r.value != []
    ensures r.None? <==> captured.None? && comment == []
  {
    if captured.Some? then captured else if comment != [] then Some(comment) else None
  }

  /** A sound parameter record: a non-empty word as the name, a non-empty
      type without `}`, and a non-empty description. */
  predicate ValidParam(p: ParamInfo) {
    && p.name != [] && (forall c :: c in p.name ==> IsWordChar(c))
    && (p.typeText.Some? ==> p.typeText.value != [] && '}' !in p.typeText.value)
    && (p.description.Some? ==> p.description.value != [])
  }

  /** The record one tag adds to `params`: only a `param` tag whose text
      matches the parameter pattern adds one. */
  function ParamOf(tag: Tag): (r: Option<ParamInfo>)
    ensures r.Some? ==> ValidParam(r.value) && tag.tagName == "param" && MatchParam(tag.text).Some?
    ensures tag.tagName == "param" && MatchParam(tag.text).Some? ==> r.Some?
    ensures r.Some? ==>
              r.value == ParamInfo(MatchParam(tag.text).value.name, MatchParam(tag.text).value.typeText,
                                   OrComment(MatchParam(tag.text).value.description, tag.comment))
  {
    if tag.tagName != "param" then None
    else match MatchParam(tag.text)
      case None => None
      case Some(m) => Some(ParamInfo(m.name, m.typeText, OrComment(m.description, tag.comment)))
  }

  /** The parameter records of a JSDoc block's tags, in tag order. */
  function Params(tags: seq<Tag>): (r: seq<ParamInfo>)
    ensures |r| <= |tags|
    ensures forall k :: 0 <= k < |r| ==> ValidParam(r[k])
  {
    if tags == [] then []
    else
      var rest := Params(tags[1..]);
      match ParamOf(tags[0])
      case Some(p) => [p] + rest
      case None => rest
  }

  /** The tags that add a parameter record. */
  predicate HasParam(tag: Tag) {
    ParamOf(tag).Some?
  }

  /** The record a tag adds to `params`, as a list of at most one. */
  function ParamRecords(tag: Tag): seq<ParamInfo> {
    if HasParam(tag) then [ParamOf(tag).value] else []
  }

  /** `params` is the concatenation of what each tag adds, in tag order. */
  lemma {:induction false} ParamsConcat(tags: seq<Tag>)
    ensures Params(tags) == FlatMap(ParamRecords, tags)
    decreases |tags|
  {
    if tags != [] {
      ParamsConcat(tags[1..]);
    }
  }

  /** `params` holds exactly the records of the tags that add one, in tag
      order. */
  lemma {:induction false} ParamsAreMatchingTags(tags: seq<Tag>)
    ensures |Params(tags)| == |Filter(HasParam, tags)|
    ensures forall k :: 0 <= k < |Params(tags)| ==> ParamOf(Filter(HasParam, tags)[k]) == Some(Params(tags)[k])
    decreases |tags|
  {
    if tags != [] {
      var rest := tags[1..];
      ParamsAreMatchingTags(rest);
      ParamsConcat(tags);
      ParamsConcat(rest);
      FilterCons(HasParam, tags);
      var ps := ParamRecords(tags[0]) + Params(rest);
      var hs := (if HasParam(tags[0]) then [tags[0]] else []) + Filter(HasParam, rest);
      assert Params(tags) == ps && Filter(HasParam, tags) == hs;
      var n := |ParamRecords(tags[0])|;
      assert n == |hs| - |Filter(HasParam, rest)|;
      forall k | n <= k < |ps| ensures ParamOf(hs[k]) == Some(ps[k]) {
        var t := Filter(HasParam, rest)[k - n];
        var q := Params(rest)[k - n];
        assert ParamOf(t) == Some(q);
        assert hs[k] == t && ps[k] == q;
      }
    }
  }

  /** A sound return record: a type, when present, is non-empty and
      without `}`; a description, when present, is non-empty. */
  predicate ValidReturn(r: ReturnInfo) {
    && (r.typeText.Some? ==> r.typeText.value != [] && '}' !in r.typeText.value)
    && (r.description.Some? ==> r.description.value != [])
  }

  function IsReturnTag(tag: Tag): bool {
    tag.tagName == "returns" || tag.tagName == "return"
  }

  /** The record a tag sets `returns` to, or `None` when it leaves it as
      it is: a return tag whose text matches the return pattern, or that
      does not match but has a comment. */
  function ReturnOf(tag: Tag): (r: Option<ReturnInfo>)
    ensures r.Some? ==> ValidReturn(r.value) && IsReturnTag(tag)
    ensures r.None? <==> !IsReturnTag(tag) || (MatchReturn(tag.text).None? && tag.comment == [])
    ensures IsReturnTag(tag) && MatchReturn(tag.text).Some? ==>
              r == Some(ReturnInfo(MatchReturn(tag.text).value.typeText,
                                   OrComment(if MatchReturn(tag.text).value.description != []
                                             then Some(MatchReturn(tag.text).value.description) else None,
                                             tag.comment)))
    ensures IsReturnTag(tag) && MatchReturn(tag.text).None? && tag.comment != [] ==>
              r == Some(ReturnInfo(None, Some(tag.comment)))
  {
    if !IsReturnTag(tag) then None
    else match MatchReturn(tag.text)
      case Some(m) =>
        Some(ReturnInfo(m.typeText, OrComment(if m.description != [] then Some(m.description) else None, tag.comment)))
      case None =>
        if tag.comment != [] then Some(ReturnInfo(None, Some(tag.comment))) else None
  }

  /** The `returns` field after the tags are visited in order, starting
      from `current`. */
  function Returns(tags: seq<Tag>, current: Option<ReturnInfo>): (r: Option<ReturnInfo>)
    decreases |tags|
  {
    if tags == [] then current
    else Returns(tags[1..], if ReturnOf(tags[0]).Some? then ReturnOf(tags[0]) else current)
  }

  /** The last return tag that produces a record decides `returns`; when
      no tag produces one, `returns` keeps its value. */
  lemma {:induction false} ReturnsIsLastApplicable(tags: seq<Tag>, current: Option<ReturnInfo>)
    ensures (forall k :: 0 <= k < |tags| ==> ReturnOf(tags[k]).None?) ==> Returns(tags, current) == current
    ensures (exists k :: 0 <= k < |tags| && ReturnOf(tags[k]).Some?) ==>
              exists k :: 0 <= k < |tags| && ReturnOf(tags[k]).Some? && Returns(tags, current) == ReturnOf(tags[k])
                          && forall j :: k < j < |tags| ==> ReturnOf(tags[j]).None?
    decreases |tags|
  {
    if tags != [] {
      var next := if ReturnOf(tags[0]).Some? then ReturnOf(tags[0]) else current;
      var rest := tags[1..];
      ReturnsIsLastApplicable(rest, next);
      assert forall j :: 1 <= j < |tags| ==> tags[j] == rest[j - 1];
      if exists k :: 0 <= k < |rest| && ReturnOf(rest[k]).Some? {
        var k :| 0 <= k < |rest| && ReturnOf(rest[k]).Some? && Returns(rest, next) == ReturnOf(rest[k])
                 && forall j :: k < j < |rest| ==> ReturnOf(rest[j]).None?;
        assert ReturnOf(tags[k + 1]).Some? && Returns(tags, current) == ReturnOf(tags[k + 1]);
      } else if ReturnOf(tags[0]).Some? {
        assert forall j :: 0 < j < |tags| ==> ReturnOf(tags[j]).None?;
      }
    }
  }

  /** Visiting the tags keeps a sound `returns` sound. */
  lemma {:induction false} ReturnsValid(tags: seq<Tag>, current: Option<ReturnInfo>)
    requires current.Some? ==> ValidReturn(current.value)
    ensures Returns(tags, current).Some? ==> ValidReturn(Returns(tags, current).value)
    decreases |tags|
  {
    if tags != [] {
      ReturnsValid(tags[1..], if ReturnOf(tags[0]).Some? then ReturnOf(tags[0]) else current);
    }
  }

  /** The record of a named function whose first JSDoc block is `doc`:
      the trimmed description when non-empty, the parameter records when
      there are any, and the return record the tags leave. */
  function FromDoc(name: string, doc: JsDoc): (r: FunctionInfo)
    ensures r.name == name
    ensures r.description == (if Trim(doc.description) != [] then Some(Trim(doc.description)) else None)
    ensures r.description.Some? ==> Trim(r.description.value) == r.description.value
    ensures r.params == (if Params(doc.tags) != [] then Some(Params(doc.tags)) else None)
    ensures r.returnInfo == Returns(doc.tags, None)
    ensures r.returnInfo.Some? ==> ValidReturn(r.returnInfo.value)
  {
    var description := Trim(doc.description);
    var params := Params(doc.tags);
    TrimTwice(doc.description);
    ReturnsValid(doc.tags, None);
    FunctionInfo(
      name,
      if description != [] then Some(description) else None,
      if params != [] then Some(params) else None,
      Returns(doc.tags, None))
  }

  /** `processFunction`: `None` when the function gets no name; otherwise
      the record, whose description, parameters and return come from the
      first JSDoc block only. */
  function ProcessFunction(fn: FunctionLike, fallback: string): (r: Option<FunctionInfo>)
    ensures r.None? <==> ChooseName(fn.ownName, fallback) == []
    ensures r.Some? ==> r.value.name == ChooseName(fn.ownName, fallback)
    ensures r.Some? && r.value.description.Some? ==>
              r.value.description.value != [] && Trim(r.value.description.value) == r.value.description.value
    ensures r.Some? && r.value.params.Some? ==>
              r.value.params.value != [] && forall k :: 0 <= k < |r.value.params.value| ==> ValidParam(r.value.params.value[k])
    ensures r.Some? && r.value.returnInfo.Some? ==> ValidReturn(r.value.returnInfo.value)
    ensures r.Some? && fn.docs == [] ==>
              r.value.description.None? && r.value.params.None? && r.value.returnInfo.None?
    ensures r.Some? && fn.docs != [] ==>
              r.value.description == (if Trim(fn.docs[0].description) != [] then Some(Trim(fn.docs[0].description)) else None)
    ensures r.Some? && fn.docs != [] ==>
              r.value.params == (if Params(fn.docs[0].tags) != [] then Some(Params(fn.docs[0].tags)) else None)
    ensures r.Some? && fn.docs != [] ==> r.value.returnInfo == Returns(fn.docs[0].tags, None)
  {
    var name := ChooseName(fn.ownName, fallback);
    if name == [] then None
    else if fn.docs == [] then Some(FunctionInfo(name, None, None, None))
    else Some(FromDoc(name, fn.docs[0]))
  }

  /** JSDoc blocks after the first change nothing: the record is decided
      by the first block alone. */
  lemma ProcessFunctionFirstBlock(fn: FunctionLike, fallback: string, others: seq<JsDoc>)
    requires fn.docs != []
    ensures ProcessFunction(fn.(docs := [fn.docs[0]] + others), fallback) == ProcessFunction(fn, fallback)
  {
    var g := fn.(docs := [fn.docs[0]] + others);
    assert g.docs[0] == fn.docs[0];
  }

  /** A function-like node offered to `processFunction`, with the name the
      caller offers for it. */
  datatype Candidate = Candidate(fn: FunctionLike, fallback: string)

  function DeclCandidate(fn: FunctionLike): Candidate {
    Candidate(fn, "")
  }

  /** A variable offers its initializer under its own name when that is
      an arrow function or a function expression. */
  function VarCandidate(v: VariableDecl): seq<Candidate> {
    match v.initializer
    case ArrowFunction(arrow) => [Candidate(arrow, v.name)]
    case FunctionExpression(expression) => [Candidate(expression, v.name)]
    case _ => []
  }

  /** A template literal's rendering of a name that may be missing. */
  function Render(name: Option<string>): string {
    if name.Some? then name.value else "undefined"
  }

  /** The name a method is offered under: `Class.method`. */
  function MethodName(cls: ClassDecl, m: FunctionLike): string {
    Render(cls.name) + "." + Render(m.ownName)
  }

  function MethodCandidates(cls: ClassDecl): (r: seq<Candidate>)
    ensures |r| == |cls.methods|
    ensures forall k :: 0 <= k < |r| ==> r[k] == Candidate(cls.methods[k], MethodName(cls, cls.methods[k]))
  {
    Map((m: FunctionLike) => Candidate(m, MethodName(cls, m)), cls.methods)
  }

  /** Function declarations, then variable initializers, then class
      methods, each group in source order. */
  function Candidates(s: SourceSummary): seq<Candidate> {
    Map(DeclCandidate, s.functions) + FlatMap(VarCandidate, s.variables) + FlatMap(MethodCandidates, s.classes)
  }

  function Record(c: Candidate): seq<FunctionInfo> {
    match ProcessFunction(c.fn, c.fallback)
    case Some(info) => [info]
    case None => []
  }

  /** `collectFunctions`: every candidate that gets a name, in order. */
  function CollectFunctions(s: SourceSummary): (r: seq<FunctionInfo>)
    ensures forall k :: 0 <= k < |r| ==> r[k].name != []
  {
    RecordedNames(Candidates(s));
    FlatMap(Record, Candidates(s))
  }

  function NameOf(info: FunctionInfo): string {
    info.name
  }

  function CandidateName(c: Candidate): string {
    ChooseName(c.fn.ownName, c.fallback)
  }

  predicate NonEmpty(name: string) {
    name != []
  }

  /** The recorded names are the candidates' chosen names, the empty ones
      left out, in order. */
  lemma {:induction false} RecordedNames(cs: seq<Candidate>)
    ensures Map(NameOf, FlatMap(Record, cs)) == Filter(NonEmpty, Map(CandidateName, cs))
    ensures forall k :: 0 <= k < |FlatMap(Record, cs)| ==> FlatMap(Record, cs)[k].name != []
    decreases |cs|
  {
    if cs != [] {
      var head := Record(cs[0]);
      var rest := FlatMap(Record, cs[1..]);
      var all := head + rest;
      RecordedNames(cs[1..]);
      RecordOne(cs[0]);
      assert FlatMap(Record, cs) == all;
      assert Map(CandidateName, cs) == [CandidateName(cs[0])] + Map(CandidateName, cs[1..]);
      assert Filter(NonEmpty, Map(CandidateName, cs))
          == (if NonEmpty(CandidateName(cs[0])) then [CandidateName(cs[0])] else []) + Filter(NonEmpty, Map(CandidateName, cs[1..])) by {
        FilterCons(NonEmpty, Map(CandidateName, cs));
        assert Map(CandidateName, cs)[1..] == Map(CandidateName, cs[1..]);
      }
      assert Map(NameOf, all) == Map(NameOf, head) + Map(NameOf, rest) by {
        MapAppend(NameOf, head, rest);
      }
      forall k | 0 <= k < |all| ensures all[k].name != [] {
        if k >= |head| {
          assert all[k] == rest[k - |head|];
        }
      }
    }
  }

  /** One candidate is recorded under its chosen name, or not at all when
      that name is empty. */
  lemma RecordOne(c: Candidate)
    ensures Map(NameOf, Record(c)) == if NonEmpty(CandidateName(c)) then [CandidateName(c)] else []
    ensures forall k :: 0 <= k < |Record(c)| ==> Record(c)[k].name != []
  {
  }

  /** Every method of every class is recorded: the name it is offered
      under always holds a `.`. */
  lemma {:induction false} AllMethodsRecorded(classes: seq<ClassDecl>)
    ensures |FlatMap(Record, FlatMap(MethodCandidates, classes))| == |FlatMap(MethodCandidates, classes)|
    decreases |classes|
  {
    if classes != [] {
      var head := MethodCandidates(classes[0]);
      var tail := FlatMap(MethodCandidates, classes[1..]);
      AllMethodsRecorded(classes[1..]);
      FlatMapAppend(Record, head, tail);
      forall k | 0 <= k < |head| ensures '.' in head[k].fallback {
        var name := MethodName(classes[0], classes[0].methods[k]);
        assert name[|Render(classes[0].name)|] == '.';
      }
      MethodsRecorded(head);
    }
  }

  /** Candidates offered under a non-empty name are all recorded. */
  lemma {:induction false} MethodsRecorded(cs: seq<Candidate>)
    requires forall k :: 0 <= k < |cs| ==> '.' in cs[k].fallback
    ensures |FlatMap(Record, cs)| == |cs|
    decreases |cs|
  {
    if cs != [] {
      assert CandidateName(cs[0]) != [];
      assert forall k :: 1 <= k < |cs| ==> cs[1..][k - 1] == cs[k];
      MethodsRecorded(cs[1..]);
    }
  }

  /** A `param` tag written the documented way records its name, type
      and dash description. */
  lemma ParamTagRecorded(t: string, name: string, text: string, comment: string)
    requires t != [] && '}' !in t
    requires name != [] && forall c :: c in name ==> IsWordChar(c)
    requires text != [] && !IsSpace(text[0]) && forall c :: c in text ==> !IsLineTerminator(c)
    ensures ParamOf(Tag("param", "@param {" + t + "} " + name + " - " + text, comment))
            == Some(ParamInfo(name, Some(t), Some(text)))
  {
    ParamTagRoundTrip(t, name, text);
  }

  /** A return tag written the documented way records its type and text;
      with no text after the type, the tag's comment is the description. */
  lemma ReturnTagRecorded(plural: bool, t: string, text: string, comment: string)
    requires t != [] && '}' !in t
    requires (text != [] ==> !IsSpace(text[0])) && forall c :: c in text ==> !IsLineTerminator(c)
    ensures var tag := Tag(if plural then "returns" else "return",
                           (if plural then "@returns {" else "@return {") + t + "} " + text, comment);
            ReturnOf(tag) == Some(ReturnInfo(Some(t),
                                   if text != [] then Some(text) else if comment != [] then Some(comment) else None))
  {
    ReturnTagRoundTrip(plural, t, text);
  }
}
