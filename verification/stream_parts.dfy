/** `StreamPart`: a string that knows its media type, the normalisation of
    arbitrary values into parts, and conversion between media types through
    the converter registry. */
module StreamParts {
  import opened Wrappers
  import opened MediaTypes
  import opened Converters
  import Decimal
  import HtmlEscape

  datatype StreamPart = StreamPart(mediaType: MediaType, content: string)

  /** The one error: no converter is registered for the pair. */
  datatype ConversionNotFound = ConversionNotFound(from: MediaType, to: MediaType)

  /** The values `to_stream_part` distinguishes: nil, something that already
      is a part (of representation `P`), an integer, and any other object,
      given by the text its `to_s` returns. */
  datatype Value<P> = Nil | PartValue(part: P) | IntValue(n: int) | ObjectValue(text: string)

  /** Ruby's `to_s` on the values that are neither nil nor a part. */
  function ToS<P>(x: Value<P>): (s: string)
    requires x.IntValue? || x.ObjectValue?
    ensures x.IntValue? ==> Decimal.IsDecimal(s) && Decimal.Parse(s) == x.n
    ensures x.IntValue? ==> s == Decimal.IntToString(x.n)
    ensures x.ObjectValue? ==> s == x.text
  {
    match x
    case IntValue(n) =>
      Decimal.ParseIntToString(n);
      Decimal.IntToString(n)
    case ObjectValue(text) => text
  }

  /** `to_stream_part`: nil stays nil, a part is returned as it is, anything
      else becomes a text/plain part holding its `to_s`. */
  function ToStreamPart(x: Value<StreamPart>): (r: Option<StreamPart>)
    ensures r.None? <==> x.Nil?
    ensures x.PartValue? ==> r == Some(x.part)
    ensures x.IntValue? || x.ObjectValue? ==> r == Some(StreamPart(TextPlain, ToS(x)))
  {
    match x
    case Nil => None
    case PartValue(p) => Some(p)
    case _ => Some(StreamPart(TextPlain, ToS(x)))
  }

  /** Normalising twice is normalising once. */
  lemma ToStreamPartIdempotent(x: Value<StreamPart>)
    requires !x.Nil?
    ensures ToStreamPart(PartValue(ToStreamPart(x).value)) == ToStreamPart(x)
  {
  }

  /** `convert!(t)` / `convert(t)` on a part value: the part as it is after
      the conversion, or the error raised.  The identity conversion succeeds
      without consulting the registry; otherwise the exact pair is looked up,
      and type and content change together. */
  function Convert(reg: Registry, p: StreamPart, t: MediaType): (r: Result<StreamPart, ConversionNotFound>)
    ensures t == p.mediaType ==> r == Success(p)
    ensures r.Success? ==> r.value.mediaType == t
    ensures r.Failure? <==> t != p.mediaType && Lookup(reg, p.mediaType, t).None?
    ensures r.Failure? ==> r.error == ConversionNotFound(p.mediaType, t)
  {
    if t == p.mediaType then Success(p)
    else
      match Lookup(reg, p.mediaType, t)
      case None => Failure(ConversionNotFound(p.mediaType, t))
      case Some(cnv) => Success(StreamPart(t, cnv(p.content)))
  }

  /** A successful non-identity conversion applies the registered converter
      to the old content. */
  lemma ConvertApplies(reg: Registry, p: StreamPart, t: MediaType, cnv: Converter)
    requires t != p.mediaType
    requires Lookup(reg, p.mediaType, t) == Some(cnv)
    ensures Convert(reg, p, t) == Success(StreamPart(t, cnv(p.content)))
  {
  }

  /** The identity conversion does not depend on the registry at all: it
      succeeds even with nothing registered. */
  lemma ConvertIdentity(reg: Registry, p: StreamPart)
    ensures Convert(reg, p, p.mediaType) == Convert(Empty, p, p.mediaType) == Success(p)
  {
  }

  /** Converting again to the type just reached changes nothing. */
  lemma ConvertIdempotent(reg: Registry, p: StreamPart, t: MediaType)
    requires Convert(reg, p, t).Success?
    ensures Convert(reg, Convert(reg, p, t).value, t) == Convert(reg, p, t)
  {
  }

  /** Against a registry built by registrations, conversion succeeds exactly
      when the target is the current type or that very pair was registered. */
  lemma ConvertSucceedsIff(history: seq<Registration>, p: StreamPart, t: MediaType)
    ensures Convert(Build(history), p, t).Success?
        <==> t == p.mediaType
             || exists i :: 0 <= i < |history| && history[i].from == p.mediaType && history[i].to == t
  {
    ExactPairOnly(history, p.mediaType, t);
  }

  /** No transitive conversion: with `a -> b` and `b -> c` registered, an
      `a` part still cannot be converted to `c`. */
  lemma ConvertNoChaining(a: MediaType, b: MediaType, c: MediaType, ab: Converter, bc: Converter, content: string)
    requires a != b && b != c && a != c
    ensures Convert(Build([Registration(a, b, ab), Registration(b, c, bc)]), StreamPart(a, content), c)
         == Failure(ConversionNotFound(a, c))
  {
    NoChaining(a, b, c, ab, bc);
  }

  /** Registering another pair leaves a conversion's outcome as it was. */
  lemma ConvertFrame(reg: Registry, from: MediaType, to: MediaType, cnv: Converter, p: StreamPart, t: MediaType)
    requires from != p.mediaType || to != t
    ensures Convert(Register(reg, from, to, cnv), p, t) == Convert(reg, p, t)
  {
  }

  /** The built-in converter escapes plain text into HTML. */
  lemma ConvertBuiltinEscapes(s: string)
    ensures Convert(Builtin(), StreamPart(TextPlain, s), TextHtml)
         == Success(StreamPart(TextHtml, HtmlEscape.Escape(s)))
  {
  }

  lemma ConvertBuiltinExample()
    ensures Convert(Builtin(), StreamPart(TextPlain, "<b>&"), TextHtml)
         == Success(StreamPart(TextHtml, "&lt;b&gt;&amp;"))
  {
    ConvertBuiltinEscapes("<b>&");
    HtmlEscape.EscapeExample();
  }

  /** A stream part object, for the operations whose point is mutation and
      object identity. */
  class Part {
    var mediaType: MediaType
    var content: string

    constructor (mediaType: MediaType, content: string)
      ensures State() == StreamPart(mediaType, content)
    {
      this.mediaType := mediaType;
      this.content := content;
    }

    function State(): StreamPart
      reads this
    {
      StreamPart(mediaType, content)
    }

    /** `to_stream_part` on objects: a part comes back as the very same
        object, nil as null, anything else as a new text/plain part. */
    static method ToStreamPart(x: Value<Part>) returns (r: Part?)
      ensures x.Nil? ==> r == null
      ensures x.PartValue? ==> r == x.part
      ensures x.IntValue? || x.ObjectValue? ==> r != null && fresh(r) && r.State() == StreamPart(TextPlain, ToS(x))
    {
      match x
      case Nil => r := null;
      case PartValue(p) => r := p;
      case _ => r := new Part(TextPlain, ToS(x));
    }

    /** `convert!(t)`: on failure the part is left exactly as it was; on
        success its type and content are replaced together. */
    method ConvertInPlace(reg: Registry, t: MediaType) returns (outcome: Outcome<ConversionNotFound>)
      modifies this
      ensures outcome.Fail? ==> State() == old(State())
      ensures Convert(reg, old(State()), t)
           == (if outcome.Pass? then Success(State()) else Failure(outcome.error))
    {
      if t == mediaType {
        return Pass;
      }
      var converter := Lookup(reg, mediaType, t);
      if converter.None? {
        return Fail(ConversionNotFound(mediaType, t));
      }
      content, mediaType := converter.value(content), t;
      outcome := Pass;
    }

    /** `convert(t)`: converts a fresh copy, leaving this part untouched. */
    method ConvertCopy(reg: Registry, t: MediaType) returns (r: Result<Part, ConversionNotFound>)
      ensures State() == old(State())
      ensures r.Success? ==> fresh(r.value) && Convert(reg, State(), t) == Success(r.value.State())
      ensures r.Failure? ==> Convert(reg, State(), t) == Failure(r.error)
    {
      var msg := new Part(mediaType, content);
      var outcome := msg.ConvertInPlace(reg, t);
      if outcome.Fail? {
        return Failure(outcome.error);
      }
      r := Success(msg);
    }
  }
}
