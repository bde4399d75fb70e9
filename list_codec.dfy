/**
 `juce::VariantConverter<std::vector<T>>` with `T` an integer type: a list-valued
 validation option travels to the worker process as one string value, the decimal
 texts of its elements separated by commas, and is read back token by token.
 */
module ListCodec {
  import opened Decimal
  import opened Tokens

  /**
   A JUCE `var`. The codec only produces and accepts `Str`; `Void` and `Int` stand
   for the other kinds of value a caller could hand to `FromVar`, which its
   precondition rules out.
   */
  datatype Var = Void | Int(n: int) | Str(text: string)

  /** The decimal text of each element, in order. */
  function Texts(xs: seq<int>): seq<string> {
    seq(|xs|, i requires 0 <= i < |xs| => IntToText(xs[i]))
  }

  /** The string `toVar` produces for a list. */
  function Encode(xs: seq<int>): string {
    Join(Texts(xs))
  }

  /** The list `fromVar` produces for a string: one element per token, in order. */
  function Decode(s: string): seq<int> {
    var ts := Tokenize(s);
    seq(|ts|, i requires 0 <= i < |ts| => ParseInt(ts[i]))
  }

  /**
   `toVar`: "" for an empty list; otherwise the first element's text, then
   "," and the text of each later element appended to the same string.
   */
  method ToVar(vc: seq<int>) returns (v: Var)
    ensures v.Str? && v.text == Encode(vc)
    ensures vc == [] ==> v.text == ""
    ensures vc != [] ==> v.text == IntToText(vc[0]) + CommaPrefixed(Texts(vc[1..]))
  {
    if vc == [] {
      return Str("");
    }
    var text := IntToText(vc[0]);
    assert Texts(vc[..1]) == [text];
    for i := 1 to |vc|
      invariant text == Encode(vc[..i])
    {
      assert Texts(vc[..i + 1]) == Texts(vc[..i]) + [IntToText(vc[i])];
      JoinSnoc(Texts(vc[..i]), IntToText(vc[i]));
      text := text + [Comma] + IntToText(vc[i]);
    }
    assert vc[..|vc|] == vc;
    v := Str(text);
    JoinFirstThenPrefixed(Texts(vc));
    assert Texts(vc)[1..] == Texts(vc[1..]);
  }

  /**
   `fromVar`: the value must be a string; a fresh vector receives one element
   per comma-separated token, converted in token order, and nothing else.
   */
  method FromVar(v: Var) returns (vc: seq<int>)
    requires v.Str?
    ensures vc == Decode(v.text)
    ensures |vc| == |Tokenize(v.text)|
    ensures forall i :: 0 <= i < |vc| ==> vc[i] == ParseInt(Tokenize(v.text)[i])
    ensures v.text == "" ==> vc == []
  {
    vc := [];
    var tokens := Tokenize(v.text);
    for i := 0 to |tokens|
      invariant |vc| == i
      invariant forall j :: 0 <= j < i ==> vc[j] == ParseInt(tokens[j])
    {
      vc := vc + [ParseInt(tokens[i])];
    }
  }

  /** Decoding the encoding of any list, of any length, gives the list back. */
  lemma DecodeEncode(xs: seq<int>)
    ensures Decode(Encode(xs)) == xs
  {
    var ts := Texts(xs);
    assert AllCommaFree(ts);
    if xs != [] {
      assert |ts[0]| > 0;
    }
    TokenizeJoin(ts);
    forall i | 0 <= i < |xs|
      ensures Decode(Encode(xs))[i] == xs[i]
    {
      ParseIntOfIntToText(xs[i]);
    }
  }

  /** Only the empty list encodes to "": the empty case stays distinguishable. */
  lemma EncodeEmpty(xs: seq<int>)
    ensures Encode(xs) == "" <==> xs == []
  {
  }

  /** An encoded list of n > 0 elements holds n - 1 commas and n - 1 characters besides its texts. */
  lemma EncodeShape(xs: seq<int>)
    requires xs != []
    ensures Commas(Encode(xs)) == |xs| - 1
    ensures |Encode(xs)| == TotalLength(Texts(xs)) + |xs| - 1
  {
    JoinShape(Texts(xs));
  }

  /** A decoded string yields no element for "" and one more element than commas otherwise. */
  lemma DecodeLength(s: string)
    ensures |Decode(s)| == if s == "" then 0 else Commas(s) + 1
  {
    TokenizeCount(s);
  }

  /** Different lists are sent as different strings. */
  lemma EncodeInjective(xs: seq<int>, ys: seq<int>)
    ensures Encode(xs) == Encode(ys) <==> xs == ys
  {
    DecodeEncode(xs);
    DecodeEncode(ys);
  }
}
