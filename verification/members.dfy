/** `Member` of index.js: a person of the family, made of a type from one of
    two closed catalogues (adults and children) and a skin-tone modifier from
    a closed list. Member objects are compared by identity in the source; the
    model gives them identity through the `MemberId` keys of module Families,
    so a `Member` here is only the data an object carries. */
module Members {

  /** The zero-width joiner that combines members into one family glyph. */
  const ZWJ: string := "\U{200D}"

  /** A `Member.Type`: the glyph and whether it is an adult type. */
  datatype MemberType = MemberType(glyph: string, isAdult: bool)

  const PERSON := MemberType("\U{1F9D1}", true)
  const WOMAN := MemberType("\U{1F469}", true)
  const MAN := MemberType("\U{1F468}", true)

  const CHILD := MemberType("\U{1F9D2}", false)
  const GIRL := MemberType("\U{1F467}", false)
  const BOY := MemberType("\U{1F466}", false)
  const BABY := MemberType("\U{1F476}", false)

  /** `Member.Type.Adult`, in declaration order. */
  const AdultTypes: seq<MemberType> := [PERSON, WOMAN, MAN]

  /** `Member.Type.Child`, in declaration order. */
  const ChildTypes: seq<MemberType> := [CHILD, GIRL, BOY, BABY]

  /** `Member.Tone`: no modifier, then the five Fitzpatrick modifiers. */
  const Tones: seq<string> := ["", "\U{1F3FB}", "\U{1F3FC}", "\U{1F3FD}", "\U{1F3FE}", "\U{1F3FF}"]

  /** A member's data: its type and its tone. The source's setters for both
      become record updates; the change notification is not modelled. */
  datatype Member = Member(mtype: MemberType, tone: string) {

    /** `isAdult`: read through the type. */
    predicate IsAdult() {
      mtype.isAdult
    }

    /** `toString`: the type's glyph followed by the tone. */
    function ToString(): string {
      mtype.glyph + tone
    }
  }

  /** `new Member(type, tone)` with the default tone `Tone[0]`. */
  function NewMember(t: MemberType): (m: Member)
    ensures m.IsAdult() == t.isAdult && m.ToString() == t.glyph
  {
    Member(t, Tones[0])
  }

  /** A member whose type and tone are entries of the catalogues, as every
      member the user interface creates is. */
  predicate Catalogued(m: Member) {
    (m.mtype in AdultTypes || m.mtype in ChildTypes) && m.tone in Tones
  }

  /** The adult catalogue holds adult types only, the child catalogue child
      types only, and the first tone is the empty string. */
  lemma CataloguesClassify()
    ensures forall t | t in AdultTypes :: t.isAdult
    ensures forall t | t in ChildTypes :: !t.isAdult
    ensures |Tones| == 6 && Tones[0] == ""
  {
  }

  /** A catalogued member's string is one glyph, then the tone. */
  lemma CataloguedShape(m: Member)
    requires Catalogued(m)
    ensures |m.mtype.glyph| == 1 && |m.tone| <= 1
    ensures m.ToString()[..1] == m.mtype.glyph && m.ToString()[1..] == m.tone
  {
  }

  /** No two catalogue types share a glyph. */
  lemma GlyphsIdentifyTypes(t: MemberType, u: MemberType)
    requires t in AdultTypes || t in ChildTypes
    requires u in AdultTypes || u in ChildTypes
    requires t.glyph == u.glyph
    ensures t == u
  {
  }

  /** The string of a catalogued member determines its type and its tone:
      different members of the catalogue never render alike. */
  lemma ToStringInjective(m: Member, n: Member)
    requires Catalogued(m) && Catalogued(n)
    requires m.ToString() == n.ToString()
    ensures m == n
  {
    CataloguedShape(m);
    CataloguedShape(n);
    GlyphsIdentifyTypes(m.mtype, n.mtype);
  }

  /** Neither the first nor the last character of a catalogued member's
      string is the zero-width joiner. */
  lemma ToStringAvoidsJoiner(m: Member)
    requires Catalogued(m)
    ensures |m.ToString()| > 0
    ensures m.ToString()[0] != ZWJ[0] && m.ToString()[|m.ToString()| - 1] != ZWJ[0]
  {
    CataloguedShape(m);
  }
}
