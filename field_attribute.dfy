/**
 * The 3270 field attribute: decoding of an attribute byte into protection,
 * numeric, display and modified-data-tag (MDT) flags, the fluent setters, and
 * re-encoding into a byte.
 *
 * Bit layout of the attribute byte: 0x01 MDT, 0x02 reserved, 0x0C display
 * (00 normal, 01 high, 10/11 zero), 0x10 numeric, 0x20 protected, 0xC0
 * control bits.  0x30 (protected and numeric) means skip-protected.
 */
module FieldAttributes {

  datatype FieldType = Unprotected | Protected | SkipProtected

  datatype FieldIntensity = Normal | High | Zero

  /**
   * The Java object's state apart from `color` and `highlighting`, which
   * are always DEFAULT and NORMAL here.  `attribute` keeps the byte it was
   * parsed from, so that bits the model does not interpret pass through
   * `ToAttributeByte`.
   */
  datatype FieldAttribute = FieldAttribute(
    fieldType: FieldType,
    intensity: FieldIntensity,
    modified: bool,
    numeric: bool,
    skipProtected: bool,
    rightJustify: bool,
    visible: bool,
    attribute: bv8)
  {
    predicate CanInput() {
      fieldType == Unprotected
    }

    predicate IsProtected() {
      fieldType == Protected || fieldType == SkipProtected
    }

    predicate IsSkipProtected() {
      skipProtected || fieldType == SkipProtected
    }

    function WithType(t: FieldType): (a: FieldAttribute)
      ensures a.fieldType == t && a.(fieldType := fieldType) == this
    {
      this.(fieldType := t)
    }

    function WithIntensity(i: FieldIntensity): (a: FieldAttribute)
      ensures a.intensity == i && a.(intensity := intensity) == this
    {
      this.(intensity := i)
    }

    function WithModified(b: bool): (a: FieldAttribute)
      ensures a.modified == b && a.(modified := modified) == this
    {
      this.(modified := b)
    }

    function WithNumeric(b: bool): (a: FieldAttribute)
      ensures a.numeric == b && a.(numeric := numeric) == this
    {
      this.(numeric := b)
    }

    /** `autoSkip(b)` sets only the skip flag, not the field type. */
    function WithAutoSkip(b: bool): (a: FieldAttribute)
      ensures a.skipProtected == b && a.(skipProtected := skipProtected) == this
    {
      this.(skipProtected := b)
    }

    function WithRightJustify(b: bool): (a: FieldAttribute)
      ensures a.rightJustify == b && a.(rightJustify := rightJustify) == this
    {
      this.(rightJustify := b)
    }

    function WithVisible(b: bool): (a: FieldAttribute)
      ensures a.visible == b && a.(visible := visible) == this
    {
      this.(visible := b)
    }

    /**
     * Re-encodes the attribute: the bits 0x02, 0x40 and 0x80 of the parsed
     * byte are kept, the other bits are rebuilt from the decoded fields.
     */
    function ToAttributeByte(): (r: bv8)
      ensures r & 0xC2 == attribute & 0xC2
      ensures (r & 0x01 != 0) == modified
      ensures (r & 0x30 == 0x30) == (fieldType == SkipProtected || (fieldType == Protected && numeric))
      ensures (r & 0x20 != 0) == IsProtected()
      ensures (r & 0x10 != 0) == (fieldType == SkipProtected || numeric)
      ensures r & 0x0C == (if intensity == High then 0x04
                           else if !visible || intensity == Zero then 0x0C
                           else 0x00)
    {
      var kept := attribute & 0xC2;
      var typeBits: bv8 :=
        if fieldType == SkipProtected then 0x30
        else if fieldType == Protected then 0x20
        else 0x00;
      var numericBit: bv8 := if numeric then 0x10 else 0x00;
      var displayBits: bv8 :=
        if intensity == High then 0x04
        else if !visible || intensity == Zero then 0x0C
        else 0x00;
      var mdtBit: bv8 := if modified then 0x01 else 0x00;
      kept | typeBits | numericBit | displayBits | mdtBit
    }
  }

  /** `new FieldAttribute()`: unprotected, normal, visible, nothing set. */
  function Default(): (a: FieldAttribute)
    ensures a.CanInput() && !a.IsProtected() && !a.IsSkipProtected()
    ensures a.intensity == Normal && a.visible
    ensures !a.modified && !a.numeric && !a.rightJustify
    ensures a.ToAttributeByte() == 0x00
  {
    FieldAttribute(Unprotected, Normal, false, false, false, false, true, 0x00)
  }

  /** `new FieldAttribute(b)`, i.e. `parseAttribute(b)`. */
  function Parse(b: bv8): (a: FieldAttribute)
    ensures a.attribute == b
    ensures a.IsProtected() == (b & 0x20 != 0)
    ensures a.CanInput() == (b & 0x20 == 0)
    ensures a.numeric == (b & 0x10 != 0)
    ensures a.modified == (b & 0x01 != 0)
    ensures (a.fieldType == SkipProtected) == (b & 0x30 == 0x30)
    ensures a.skipProtected == (b & 0x30 == 0x30)
    ensures b & 0x0C == 0x00 ==> a.intensity == Normal && a.visible
    ensures b & 0x0C == 0x04 ==> a.intensity == High && a.visible
    ensures b & 0x0C == 0x08 || b & 0x0C == 0x0C ==> a.intensity == Zero && !a.visible
    ensures !a.rightJustify
  {
    var isProtected := b & 0x20 != 0;
    var skip := b & 0x30 == 0x30;
    var t := if skip then SkipProtected else if isProtected then Protected else Unprotected;
    var displayBits := (b & 0x0C) >> 2;
    var intensity := if displayBits == 0 then Normal else if displayBits == 1 then High else Zero;
    FieldAttribute(t, intensity, b & 0x01 != 0, b & 0x10 != 0, skip, false, displayBits <= 1, b)
  }

  /**
   * Parsing then re-encoding gives the byte back, except that display bits
   * 10 (zero intensity) come back as 11.
   */
  lemma EncodeParse(b: bv8)
    ensures Parse(b).ToAttributeByte() == (if b & 0x0C == 0x08 then b | 0x04 else b)
  {
  }

  /** The reserved and control bits survive a parse and re-encode. */
  lemma EncodeParseKeepsUninterpretedBits(b: bv8)
    ensures Parse(b).ToAttributeByte() & 0xC2 == b & 0xC2
  {
  }

  /** Re-encoding is idempotent: a re-encoded byte is a fixed point. */
  lemma EncodeParseIdempotent(b: bv8)
    ensures var e := Parse(b).ToAttributeByte(); Parse(e).ToAttributeByte() == e
  {
    EncodeParse(b);
    EncodeParse(Parse(b).ToAttributeByte());
  }

  /** `modified(x)` changes only the MDT bit of the encoding. */
  lemma SetModifiedChangesOnlyMdt(a: FieldAttribute, x: bool)
    ensures a.WithModified(x).ToAttributeByte() & 0xFE == a.ToAttributeByte() & 0xFE
    ensures (a.WithModified(x).ToAttributeByte() & 0x01 != 0) == x
  {
  }

  /** Every attribute accepts input exactly when it is not protected. */
  lemma CanInputIffUnprotected(a: FieldAttribute)
    ensures a.CanInput() <==> !a.IsProtected()
  {
  }
}
