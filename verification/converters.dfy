/** The converter registry (`ConvertersHash`): a two-level hash from a source
    media type to a target media type to a converter.  The registry is an
    explicit value here; the process-wide class variable that holds it in the
    program is the `Builtin` value passed to every operation that needs it. */
module Converters {
  import opened Wrappers
  import opened MediaTypes
  import HtmlEscape

  /** A converter takes content of one media type to content of another. */
  type Converter = string -> string

  datatype Registry = Registry(converters: map<MediaType, map<MediaType, Converter>>)

  const Empty := Registry(map[])

  /** `[](from, to)`: the inner hash for `from`, if any, then its entry for
      `to`.  Only the exact pair is consulted. */
  function Lookup(reg: Registry, from: MediaType, to: MediaType): (r: Option<Converter>)
    ensures r.Some? <==> from in reg.converters && to in reg.converters[from]
  {
    if from !in reg.converters then None
    else
      var collFrom := reg.converters[from];
      if to in collFrom then Some(collFrom[to]) else None
  }

  /** `[]=(from, to, cnv)`: creates the inner hash for `from` when missing,
      then stores `cnv` under `to`, replacing any earlier converter. */
  function Register(reg: Registry, from: MediaType, to: MediaType, cnv: Converter): (r: Registry)
    ensures Lookup(r, from, to) == Some(cnv)
    ensures forall f, t :: f != from || t != to ==> Lookup(r, f, t) == Lookup(reg, f, t)
  {
    var collFrom := if from in reg.converters then reg.converters[from] else map[];
    Registry(reg.converters[from := collFrom[to := cnv]])
  }

  /** Re-registering a pair replaces the converter: only the last one is seen. */
  lemma RegisterReplaces(reg: Registry, from: MediaType, to: MediaType, c1: Converter, c2: Converter)
    ensures Lookup(Register(Register(reg, from, to, c1), from, to, c2), from, to) == Some(c2)
  {
  }

  /** A nothing-registered registry finds no converter for any pair. */
  lemma LookupEmpty(from: MediaType, to: MediaType)
    ensures Lookup(Empty, from, to) == None
  {
  }

  /** One `[]=` call, as recorded in a registration history. */
  datatype Registration = Registration(from: MediaType, to: MediaType, converter: Converter)

  /** The registry obtained from an empty one by the given calls, in order. */
  function Build(history: seq<Registration>): Registry
  {
    if |history| == 0 then Empty
    else
      var last := history[|history| - 1];
      Register(Build(history[..|history| - 1]), last.from, last.to, last.converter)
  }

  /** Reference definition of a lookup: the converter of the most recent
      registration of exactly this pair, if there was one. */
  function LastRegistered(history: seq<Registration>, from: MediaType, to: MediaType): (r: Option<Converter>)
    ensures r.None? <==> forall i :: 0 <= i < |history| ==> history[i].from != from || history[i].to != to
    ensures r.Some? ==> exists i :: 0 <= i < |history| && history[i] == Registration(from, to, r.value)
  {
    if |history| == 0 then None
    else
      var last := history[|history| - 1];
      if last.from == from && last.to == to then Some(last.converter)
      else LastRegistered(history[..|history| - 1], from, to)
  }

  /** The hash-of-hashes lookup agrees with the history: `[](from, to)`
      returns the last converter stored for exactly `(from, to)`. */
  lemma {:induction false} LookupBuild(history: seq<Registration>, from: MediaType, to: MediaType)
    ensures Lookup(Build(history), from, to) == LastRegistered(history, from, to)
    decreases |history|
  {
    if |history| > 0 {
      LookupBuild(history[..|history| - 1], from, to);
    }
  }

  /** Lookup is exact-pair only: a converter is found for `(from, to)` if and
      only if that very pair was registered. */
  lemma ExactPairOnly(history: seq<Registration>, from: MediaType, to: MediaType)
    ensures Lookup(Build(history), from, to).Some?
        <==> exists i :: 0 <= i < |history| && history[i].from == from && history[i].to == to
  {
    LookupBuild(history, from, to);
  }

  /** Registering `(a, b)` and `(b, c)` does not make `(a, c)` available. */
  lemma NoChaining(a: MediaType, b: MediaType, c: MediaType, ab: Converter, bc: Converter)
    requires a != b && b != c
    ensures Lookup(Build([Registration(a, b, ab), Registration(b, c, bc)]), a, c) == None
  {
    ExactPairOnly([Registration(a, b, ab), Registration(b, c, bc)], a, c);
  }

  /** The registry as the program initialises it: one converter, HTML
      escaping from text/plain to text/html. */
  function Builtin(): (r: Registry)
    ensures Lookup(r, TextPlain, TextHtml) == Some(HtmlEscape.Escape)
    ensures forall f, t :: Lookup(r, f, t).Some? <==> f == TextPlain && t == TextHtml
  {
    Register(Empty, TextPlain, TextHtml, HtmlEscape.Escape)
  }
}
