/** The textual placeholder a map stores for free parameter `i`:
    `'_parameter_{}'.format(i)`. The map reader recognises it by its first
    eleven characters and decodes it with `int(s[11:])`; the tie editor
    decodes it with `int(s.split("_")[-1])`. `Maps.Param(i)` stands for
    `Encode(i)`, which is sound because both decoders give `i` back. */
module Placeholders {
  import opened Outcomes
  import opened PyStrings

  const Prefix: string := "_parameter_"

  /** `'_parameter_{}'.format(i)`. */
  function Encode(i: nat): (s: string)
    ensures |s| > |Prefix| && IsPlaceholder(s)
  {
    Prefix + NatToString(i)
  }

  /** The test `isinstance(e, str) and e[:11] == '_parameter_'`. */
  predicate IsPlaceholder(s: string) {
    |s| >= |Prefix| && s[..|Prefix|] == Prefix
  }

  /** The map reader's decoding, `int(s[11:])`. */
  function DecodeBySlice(s: string): Option<nat> {
    if IsPlaceholder(s) then ParseNat(s[|Prefix|..]) else None
  }

  /** The tie editor's decoding, `int(s.split("_")[-1])`. */
  function DecodeByLastField(s: string): Option<nat> {
    if IsPlaceholder(s) then ParseNat(LastField(s, '_')) else None
  }

  lemma EncodeDecode(i: nat)
    ensures IsPlaceholder(Encode(i))
    ensures DecodeBySlice(Encode(i)) == Some(i)
    ensures DecodeByLastField(Encode(i)) == Some(i)
  {
    var s := Encode(i);
    assert s[..|Prefix|] == Prefix;
    assert s[|Prefix|..] == NatToString(i);
    ParseNatToString(i);
    assert '_' !in NatToString(i);
    assert s == "_parameter" + ['_'] + NatToString(i);
    LastFieldAfter("_parameter", '_', NatToString(i));
  }

  /** Distinct slots get distinct placeholders. */
  lemma EncodeInjective(i: nat, j: nat)
    requires Encode(i) == Encode(j)
    ensures i == j
  {
    EncodeDecode(i);
    EncodeDecode(j);
  }
}
