/**
 * The cast policy shared by both row transformers (`castValue` in
 * ZipProcessor and CsvZipProcessor): best effort, falling back to the
 * column's text, except that a boolean never falls back.
 */
module Casting {
  import opened Wrappers
  import opened Values
  import opened JavaText

  /**
   * A field's metadata: FIELD_TYPE and FIELD_SPECIAL_TYPE, either of which
   * may be SQL NULL. Stands for FieldMetaService.FieldMeta and for
   * PropsDataService.PropsData alike.
   */
  datatype FieldMeta = FieldMeta(fieldType: Option<string>, specialType: Option<string>)

  predicate IsIntType(t: string)
  {
    t == "int" || t == "integer"
  }

  /**
   * `castValue(value, meta)`. A null value or a missing meta returns the
   * value as it is; otherwise the switch on the field type decides. The
   * switch dereferences the type, so a NULL type throws.
   */
  function CastValue(value: Option<string>, meta: Option<FieldMeta>, parseFloat: string -> Option<FloatBits>): (r: Result<Value>)
    // the only exception is the NULL type reaching the switch
    ensures r.Err? <==> value.Some? && meta.Some? && meta.value.fieldType.None?
    ensures r.Err? ==> r.failure == NullPointer
    // a null column stays null, and without metadata the text is kept
    ensures value.None? ==> r == Ok(VNull)
    ensures meta.None? && value.Some? ==> r == Ok(VStr(value.value))
    // whenever a string comes out, it is the column's own text
    ensures r.Ok? && r.value.VStr? ==> value == Some(r.value.s)
    // int and integer: the parsed value, or the text when it does not parse
    ensures value.Some? && meta.Some? && meta.value.fieldType.Some? && IsIntType(meta.value.fieldType.value) ==>
      match ParseInt(value.value)
      case Some(n) => r == Ok(VInt(n))
      case None => r == Ok(VStr(value.value))
    // float: the parsed value, or the text when it does not parse
    ensures value.Some? && meta.Some? && meta.value.fieldType == Some("float") ==>
      match parseFloat(value.value)
      case Some(b) => r == Ok(VFloat(b))
      case None => r == Ok(VStr(value.value))
    // boolean never falls back: anything but "true" in some letter case is false
    ensures value.Some? && meta.Some? && meta.value.fieldType == Some("boolean") ==>
      r.Ok? && r.value.VBool? && (r.value.b <==> ParseBoolean(value.value))
    // an unknown type keeps the text
    ensures value.Some? && meta.Some? && meta.value.fieldType.Some? ==>
      var t := meta.value.fieldType.value;
      !IsIntType(t) && t != "float" && t != "boolean" ==> r == Ok(VStr(value.value))
    // a typed value only ever comes from its own type
    ensures r.Ok? && r.value.VInt? ==> meta.Some? && meta.value.fieldType.Some? && IsIntType(meta.value.fieldType.value)
    ensures r.Ok? && r.value.VBool? ==> meta.Some? && meta.value.fieldType == Some("boolean")
    ensures r.Ok? && r.value.VFloat? ==> meta.Some? && meta.value.fieldType == Some("float")
  {
    if meta.None? || value.None? then
      Ok(if value.None? then VNull else VStr(value.value))
    else
      var v := value.value;
      match meta.value.fieldType
      case None => Err(NullPointer)
      case Some(t) =>
        if t == "float" then
          (match parseFloat(v) case Some(b) => Ok(VFloat(b)) case None => Ok(VStr(v)))
        else if t == "boolean" then
          Ok(VBool(ParseBoolean(v)))
        else if IsIntType(t) then
          (match ParseInt(v) case Some(n) => Ok(VInt(n)) case None => Ok(VStr(v)))
        else
          Ok(VStr(v))
  }

  /** "abc" against an int field comes out as the literal string "abc". */
  lemma CastUnparseableInt(pf: string -> Option<FloatBits>)
    ensures CastValue(Some("abc"), Some(FieldMeta(Some("int"), None)), pf) == Ok(VStr("abc"))
  {
    assert ParseInt("abc") == None by {
      assert !IsDigit("abc"[0]);
    }
  }

  /** The text of a 32-bit integer cast against an int field gives that integer back. */
  lemma CastIntRoundTrip(n: int, t: string, special: Option<string>, pf: string -> Option<FloatBits>)
    requires IntMin <= n <= IntMax && IsIntType(t)
    ensures CastValue(Some(IntToString(n)), Some(FieldMeta(Some(t), special)), pf) == Ok(VInt(n))
  {
    ParseIntToString(n);
  }
}
