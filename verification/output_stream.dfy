/** `OutputStream`: a sink with a fixed output type that converts each part
    it is given to that type and concatenates the contents in order. */
module OutputStreams {
  import opened Wrappers
  import opened MediaTypes
  import opened Converters
  import opened StreamParts
  import HtmlEscape

  /** `join ''`: the strings one after another, with no separator. */
  function Join(strs: seq<string>): (r: string)
    ensures |strs| == 1 ==> r == strs[0]
    ensures r == "" <==> forall i :: 0 <= i < |strs| ==> strs[i] == ""
    ensures |strs| > 0 ==> strs[0] <= r
  {
    if |strs| == 0 then "" else strs[0] + Join(strs[1..])
  }

  lemma {:induction false} JoinAppend(a: seq<string>, b: seq<string>)
    ensures Join(a + b) == Join(a) + Join(b)
    decreases |a|
  {
    if |a| == 0 {
      assert a + b == b;
    } else {
      assert (a + b)[1..] == a[1..] + b;
      JoinAppend(a[1..], b);
    }
  }

  function Contents(parts: seq<StreamPart>): (r: seq<string>)
    ensures |r| == |parts|
    ensures forall i :: 0 <= i < |parts| ==> r[i] == parts[i].content
  {
    seq(|parts|, i requires 0 <= i < |parts| => parts[i].content)
  }

  /** `parts.map { |part| part.convert(t) }`: the parts converted left to
      right; the first part that cannot be converted raises, and its error
      is the result. */
  function ConvertAll(reg: Registry, parts: seq<StreamPart>, t: MediaType): (r: Result<seq<StreamPart>, ConversionNotFound>)
    ensures r.Success? <==> forall i :: 0 <= i < |parts| ==> Convert(reg, parts[i], t).Success?
    ensures r.Success? ==> |r.value| == |parts|
    ensures r.Success? ==> forall i :: 0 <= i < |parts| ==> Convert(reg, parts[i], t) == Success(r.value[i])
    ensures r.Failure? ==> exists i :: FirstFailure(reg, parts, t, i) && Convert(reg, parts[i], t) == Failure(r.error)
  {
    if |parts| == 0 then Success([])
    else
      match Convert(reg, parts[0], t)
      case Failure(e) =>
        assert FirstFailure(reg, parts, t, 0);
        Failure(e)
      case Success(head) =>
        match ConvertAll(reg, parts[1..], t)
        case Failure(e) =>
          FirstFailureShift(reg, parts, t);
          Failure(e)
        case Success(tail) => Success([head] + tail)
  }

  /** Part `i` is the first one that cannot be converted to `t`. */
  predicate FirstFailure(reg: Registry, parts: seq<StreamPart>, t: MediaType, i: int)
  {
    && 0 <= i < |parts|
    && Convert(reg, parts[i], t).Failure?
    && forall j :: 0 <= j < i ==> Convert(reg, parts[j], t).Success?
  }

  lemma FirstFailureShift(reg: Registry, parts: seq<StreamPart>, t: MediaType)
    requires |parts| > 0 && Convert(reg, parts[0], t).Success?
    ensures forall i :: FirstFailure(reg, parts[1..], t, i) ==> FirstFailure(reg, parts, t, i + 1)
  {
  }

  datatype OutputStream = OutputStream(outputType: MediaType) {

    /** `output(*parts)`: the contents of the parts, each converted to the
        output type, joined in argument order; fails as a whole when any
        part cannot be converted. */
    function Output(reg: Registry, parts: seq<StreamPart>): (r: Result<string, ConversionNotFound>)
      ensures r.Success? <==> forall i :: 0 <= i < |parts| ==> Convert(reg, parts[i], outputType).Success?
      ensures r.Failure? ==> exists i :: FirstFailure(reg, parts, outputType, i)
                                      && Convert(reg, parts[i], outputType) == Failure(r.error)
    {
      match ConvertAll(reg, parts, outputType)
      case Failure(e) => Failure(e)
      case Success(converted) => Success(Join(Contents(converted)))
    }
  }

  /** With no parts the output is the empty string. */
  lemma OutputEmpty(reg: Registry, s: OutputStream)
    ensures s.Output(reg, []) == Success("")
  {
  }

  /** One part: its converted content, or its conversion error. */
  lemma OutputSingle(reg: Registry, s: OutputStream, p: StreamPart)
    ensures s.Output(reg, [p])
         == match Convert(reg, p, s.outputType)
            case Success(q) => Success(q.content)
            case Failure(e) => Failure(e)
  {
    assert [p][1..] == [];
    var r := Convert(reg, p, s.outputType);
    if r.Success? {
      assert ConvertAll(reg, [p][1..], s.outputType) == Success([]);
      assert [r.value] + [] == [r.value];
      assert ConvertAll(reg, [p], s.outputType) == Success([r.value]);
      assert Contents([r.value]) == [r.value.content];
      assert [r.value.content][1..] == [];
      assert Join([r.value.content]) == r.value.content;
      assert s.Output(reg, [p]) == Success(Join(Contents([r.value])));
    }
  }

  lemma ContentsAppend(a: seq<StreamPart>, b: seq<StreamPart>)
    ensures Contents(a + b) == Contents(a) + Contents(b)
  {
  }

  /** Converting a concatenation converts the left half first; the first
      error met is the result. */
  lemma {:induction false} ConvertAllAppend(reg: Registry, a: seq<StreamPart>, b: seq<StreamPart>, t: MediaType)
    ensures ConvertAll(reg, a + b, t)
         == match ConvertAll(reg, a, t)
            case Failure(e) => Failure(e)
            case Success(x) =>
              match ConvertAll(reg, b, t)
              case Failure(e) => Failure(e)
              case Success(y) => Success(x + y)
    decreases |a|
  {
    if |a| == 0 {
      assert a + b == b;
      var rb := ConvertAll(reg, b, t);
      if rb.Success? {
        assert [] + rb.value == rb.value;
      }
    } else {
      assert (a + b)[0] == a[0];
      assert (a + b)[1..] == a[1..] + b;
      ConvertAllAppend(reg, a[1..], b, t);
      var h := Convert(reg, a[0], t);
      var ra := ConvertAll(reg, a[1..], t);
      var rb := ConvertAll(reg, b, t);
      if h.Success? && ra.Success? && rb.Success? {
        assert [h.value] + (ra.value + rb.value) == ([h.value] + ra.value) + rb.value;
      }
    }
  }

  /** Output of a concatenation: the outputs of the two halves joined, or the
      error of the first half that fails, the left half first. */
  lemma OutputAppend(reg: Registry, s: OutputStream, a: seq<StreamPart>, b: seq<StreamPart>)
    ensures s.Output(reg, a + b)
         == match s.Output(reg, a)
            case Failure(e) => Failure(e)
            case Success(x) =>
              match s.Output(reg, b)
              case Failure(e) => Failure(e)
              case Success(y) => Success(x + y)
  {
    var t := s.outputType;
    ConvertAllAppend(reg, a, b, t);
    var ra := ConvertAll(reg, a, t);
    var rb := ConvertAll(reg, b, t);
    if ra.Success? && rb.Success? {
      ContentsAppend(ra.value, rb.value);
      JoinAppend(Contents(ra.value), Contents(rb.value));
    }
  }

  /** The output is the concatenation of every part's converted content, in
      argument order. */
  lemma OutputContents(reg: Registry, s: OutputStream, parts: seq<StreamPart>)
    requires forall i :: 0 <= i < |parts| ==> Convert(reg, parts[i], s.outputType).Success?
    ensures s.Output(reg, parts)
         == Success(Join(seq(|parts|, i requires 0 <= i < |parts| => Convert(reg, parts[i], s.outputType).value.content)))
  {
    var t := s.outputType;
    var converted := ConvertAll(reg, parts, t).value;
    assert Contents(converted)
        == seq(|parts|, i requires 0 <= i < |parts| => Convert(reg, parts[i], t).value.content);
  }

  /** Parts already of the output type are emitted verbatim, whatever the
      registry holds. */
  lemma OutputUnconverted(reg: Registry, s: OutputStream, parts: seq<StreamPart>)
    requires forall i :: 0 <= i < |parts| ==> parts[i].mediaType == s.outputType
    ensures s.Output(reg, parts) == Success(Join(Contents(parts)))
  {
    var r := ConvertAll(reg, parts, s.outputType);
    assert r.value == parts;
  }

  /** An HTML stream escapes each plain part and keeps their order. */
  lemma OutputPlainToHtml(x: string, y: string)
    ensures OutputStream(TextHtml).Output(Builtin(), [StreamPart(TextPlain, x), StreamPart(TextPlain, y)])
         == Success(HtmlEscape.Escape(x) + HtmlEscape.Escape(y))
  {
    var s := OutputStream(TextHtml);
    var a := StreamPart(TextPlain, x);
    var b := StreamPart(TextPlain, y);
    OutputSingle(Builtin(), s, a);
    ConvertBuiltinEscapes(x);
    OutputSingle(Builtin(), s, b);
    ConvertBuiltinEscapes(y);
    OutputAppend(Builtin(), s, [a], [b]);
    assert [a] + [b] == [a, b];
  }

  lemma OutputExample()
    ensures OutputStream(TextHtml).Output(Builtin(), [StreamPart(TextPlain, "A"), StreamPart(TextPlain, "<b>")])
         == Success("A&lt;b&gt;")
  {
    OutputPlainToHtml("A", "<b>");
    HtmlEscape.EscapeTagExample();
    assert "A" + "&lt;b&gt;" == "A&lt;b&gt;";
  }
}
