/**
 * The pure half of VoiceAttackVariables: the host's six variable kinds and
 * their tags, the tagged keys the local cache files entries under, the
 * type-code switch of `Set` (which host setter a value goes to, and with what
 * argument) and the type-code switch of `Get` (which host getter a read goes
 * to).
 */
module Kinds {
  import opened Wrappers
  import opened Text
  import opened Numbers

  /** System.TypeCode: the code `Type.GetTypeCode` gives the value's static type. */
  datatype TypeCode =
    | Empty | Object | DBNull | Boolean | Char | SByte | Byte | Int16 | UInt16
    | Int32 | UInt32 | Int64 | UInt64 | Single | Double | Decimal | DateTime | String

  /** The host's six variable kinds, named by the tag each one's cache keys carry. */
  datatype VariableKind = Short | Int | Dec | Txt | Bool | Date

  /** A .NET DateTime, known only by its tick count. */
  datatype Moment = Moment(ticks: int)

  /**
   * The culture-dependent date conversions `DateTime.ToString()` and
   * `DateTime.Parse`, which the model takes as given.
   */
  datatype Culture = Culture(formatDate: Moment -> string, parseDate: string -> Option<Moment>)

  /** A value handed to `Set`, as far as its `ToString()` text goes. */
  datatype Value =
    | BoolInput(b: bool)
    | DateInput(m: Moment)
      /** A float, double or decimal, by the text its `ToString()` gives. */
    | FloatingInput(digits: string)
      /** A char or string. */
    | TextInput(text: string)
      /** A value of one of the eight integer types. */
    | IntegerInput(i: int)
      /** Any other struct, an enum included, by the text its `ToString()` gives. */
    | OtherInput(name: string)

  /** The argument of one of the host's six typed setters. */
  datatype HostValue =
    | SmallIntValue(short: int)
    | IntValue(int32: int)
    | TextValue(text: string)
    | DecimalValue(decimal: Numbers.Decimal)
    | BooleanValue(boolean: bool)
    | DateValue(date: Moment)

  /** What the `Set` switch does with a value: one host write, an exception, or nothing. */
  datatype Outcome = Write(value: HostValue) | Raise(error: ParseError) | Ignore

  // ---------------------------------------------------------------- tags and tagged keys

  /** The tag that names a kind in cache keys. */
  function Tag(kind: VariableKind): (t: string)
    ensures TagKind(t) == Some(kind)
    ensures ':' !in t && |t| > 0
  {
    match kind
    case Short => "SHORT"
    case Int => "INT"
    case Dec => "DEC"
    case Txt => "TXT"
    case Bool => "BOOL"
    case Date => "DATE"
  }

  /** The kind a tag names, if it is one of the six. */
  function TagKind(t: string): Option<VariableKind> {
    if t == "SHORT" then Some(Short)
    else if t == "INT" then Some(Int)
    else if t == "DEC" then Some(Dec)
    else if t == "TXT" then Some(Txt)
    else if t == "BOOL" then Some(Bool)
    else if t == "DATE" then Some(Date)
    else None
  }

  /** The cache key `{TAG:name}` under which a set of `name` as `kind` is recorded. */
  function TaggedKey(kind: VariableKind, name: string): (key: string)
    ensures var n := |Tag(kind)|;
            && |key| == n + |name| + 3
            && key[0] == '{' && key[1..n + 1] == Tag(kind) && key[n + 1] == ':'
            && key[n + 2..|key| - 1] == name && key[|key| - 1] == '}'
  {
    var key := "{" + Tag(kind) + ":" + name + "}";
    assert key[1..|Tag(kind)| + 1] == Tag(kind);
    assert key[|Tag(kind)| + 2..|key| - 1] == name;
    key
  }

  /** The kind and name a cache key was built from, if it is a tagged key. */
  function ParseTaggedKey(key: string): Option<(VariableKind, string)> {
    if |key| < 2 || key[0] != '{' || key[|key| - 1] != '}' then None
    else
      var inner := key[1..|key| - 1];
      if ':' !in inner then None
      else
        var i := IndexOf(inner, ':');
        match TagKind(inner[..i])
        case None => None
        case Some(kind) => Some((kind, inner[i + 1..]))
  }

  predicate IsTaggedKey(key: string) {
    ParseTaggedKey(key).Some?
  }

  /** A tagged key reads back as the kind and the name it was built from. */
  lemma ParseTaggedKeyOfTaggedKey(kind: VariableKind, name: string)
    ensures ParseTaggedKey(TaggedKey(kind, name)) == Some((kind, name))
  {
    var key := TaggedKey(kind, name);
    var tag := Tag(kind);
    var inner := key[1..|key| - 1];
    assert inner == tag + ":" + name;
    assert inner[..|tag|] == tag;
    IndexOfFirst(inner, ':', |tag|);
    assert inner[|tag| + 1..] == name;
  }

  /** Every key that reads back as a kind and a name is the tagged key of that kind and name. */
  lemma TaggedKeyOfParse(key: string)
    requires IsTaggedKey(key)
    ensures key == TaggedKey(ParseTaggedKey(key).value.0, ParseTaggedKey(key).value.1)
  {
    var (kind, name) := ParseTaggedKey(key).value;
    ParsedKeyLayout(key);
    assert TaggedKey(kind, name) == "{" + Tag(kind) + ":" + name + "}";
  }

  /** A key that reads back as a kind and a name is spelled `{`, tag, `:`, name, `}`. */
  lemma ParsedKeyLayout(key: string)
    requires IsTaggedKey(key)
    ensures key == "{" + Tag(ParseTaggedKey(key).value.0) + ":" + ParseTaggedKey(key).value.1 + "}"
  {
    var inner := key[1..|key| - 1];
    var i := IndexOf(inner, ':');
    BracedLayout(key);
    TagOfTagKind(inner[..i]);
  }

  /** A braced text with a colon inside is `{`, the text before the first colon, `:`, the rest, `}`. */
  lemma BracedLayout(key: string)
    requires |key| >= 2 && key[0] == '{' && key[|key| - 1] == '}' && ':' in key[1..|key| - 1]
    ensures var inner := key[1..|key| - 1];
            var i := IndexOf(inner, ':');
            key == "{" + inner[..i] + ":" + inner[i + 1..] + "}"
  {
    var inner := key[1..|key| - 1];
    var i := IndexOf(inner, ':');
    var tag, name := inner[..i], inner[i + 1..];
    assert |key| == |tag| + |name| + 3;
    forall k | 0 <= k < |key| ensures key[k] == ("{" + tag + ":" + name + "}")[k] {
      if 0 < k <= i {
        assert key[k] == inner[k - 1] == tag[k - 1];
      } else if i + 1 < k < |key| - 1 {
        assert key[k] == inner[k - 1] == name[k - i - 2];
      }
    }
  }

  /** A text that names a kind is that kind's tag. */
  lemma TagOfTagKind(t: string)
    requires TagKind(t).Some?
    ensures t == Tag(TagKind(t).value)
  {
  }

  /**
   * Tagged keys collide exactly when kind and name are both the same: the
   * same name set as two different kinds is filed under two keys.
   */
  lemma TaggedKeyInjective(kind1: VariableKind, name1: string, kind2: VariableKind, name2: string)
    ensures TaggedKey(kind1, name1) == TaggedKey(kind2, name2) <==> kind1 == kind2 && name1 == name2
  {
    ParseTaggedKeyOfTaggedKey(kind1, name1);
    ParseTaggedKeyOfTaggedKey(kind2, name2);
  }

  /** A tagged key contains a colon, so `Split(':')` has a second piece. */
  lemma TaggedKeyHasColon(key: string)
    requires IsTaggedKey(key)
    ensures ':' in key
  {
    TaggedKeyOfParse(key);
    var (kind, name) := ParseTaggedKey(key).value;
    assert key[1 + |Tag(kind)|] == ':';
  }

  /**
   * The piece `key.Split(':')[1]` that `ClearStartingWith` tests: for a name
   * without a colon it is the name followed by the closing brace; a colon in
   * the name cuts it short.
   */
  lemma NameSegmentOfTaggedKey(kind: VariableKind, name: string)
    ensures ':' in TaggedKey(kind, name)
    ensures Split(TaggedKey(kind, name), ':')[1]
         == if ':' in name then name[..IndexOf(name, ':')] else name + "}"
  {
    var key := TaggedKey(kind, name);
    FirstColonOfTaggedKey(kind, name);
    SecondPiece(key, ':');
    ColonInClosedName(name);
  }

  /** The first colon of a tagged key is the one after its tag. */
  lemma FirstColonOfTaggedKey(kind: VariableKind, name: string)
    ensures ':' in TaggedKey(kind, name)
    ensures TaggedKey(kind, name)[IndexOf(TaggedKey(kind, name), ':') + 1..] == name + "}"
  {
    var key := TaggedKey(kind, name);
    var tag := Tag(kind);
    assert key == "{" + tag + ":" + (name + "}");
    assert key[..1 + |tag|] == "{" + tag;
    IndexOfFirst(key, ':', 1 + |tag|);
    assert key[1 + |tag| + 1..] == name + "}";
  }

  /** Closing a name with a brace adds no colon before the name's own. */
  lemma ColonInClosedName(name: string)
    ensures ':' in name + "}" <==> ':' in name
    ensures ':' in name ==>
              && IndexOf(name + "}", ':') == IndexOf(name, ':')
              && (name + "}")[..IndexOf(name, ':')] == name[..IndexOf(name, ':')]
  {
    var rest := name + "}";
    if ':' in name {
      var j := IndexOf(name, ':');
      assert rest[..j] == name[..j];
      IndexOfFirst(rest, ':', j);
    } else {
      assert rest[|name|] == '}';
      assert ':' !in rest;
    }
  }

  // ---------------------------------------------------------------- the Set switch

  /**
   * The text `value.ToString()` gives: integers and bools in the form their
   * own parses read back, text as it is.
   */
  function ToText(v: Value, culture: Culture): (text: string)
    ensures v.IntegerInput? ==> ParseInteger(text) == Some(v.i)
    ensures v.BoolInput? ==> ParseBool(text) == Some(v.b)
    ensures v.TextInput? ==> text == v.text
    ensures v.DateInput? ==> text == culture.formatDate(v.m)
  {
    match v
    case BoolInput(b) => BoolToString(b)
    case DateInput(m) => culture.formatDate(m)
    case FloatingInput(digits) => digits
    case TextInput(text) => text
    case IntegerInput(i) => ParseIntegerOfIntToString(i); IntToString(i)
    case OtherInput(name) => name
  }

  /** The integer type codes, with their ranges. */
  predicate IntegerFits(code: TypeCode, i: int) {
    match code
    case SByte => -0x80 <= i <= 0x7F
    case Byte => 0 <= i <= 0xFF
    case Int16 => InInt16(i)
    case UInt16 => 0 <= i <= 0xFFFF
    case Int32 => InInt32(i)
    case UInt32 => 0 <= i <= 0xFFFF_FFFF
    case Int64 => -0x8000_0000_0000_0000 <= i <= 0x7FFF_FFFF_FFFF_FFFF
    case UInt64 => 0 <= i <= MaxUInt64
    case _ => false
  }

  predicate IsShortCode(code: TypeCode) {
    code == Byte || code == Int16 || code == UInt16 || code == SByte
  }

  predicate IsIntCode(code: TypeCode) {
    code == Int32 || code == UInt32 || code == Int64 || code == UInt64
  }

  /**
   * `value` is a value whose static type has type code `code`: what
   * `Set<T>` guarantees when it passes `Type.GetTypeCode(typeof(T))`. An enum
   * has its underlying integer type's code.
   */
  predicate Fits(code: TypeCode, v: Value): (r: bool)
    ensures r ==> code != Empty && code != DBNull
    ensures r && v.IntegerInput? ==> -0x8000_0000_0000_0000 <= v.i <= MaxUInt64
  {
    match code
    case Boolean => v.BoolInput?
    case DateTime => v.DateInput?
    case Single | Double | Decimal => v.FloatingInput?
    case Char => v.TextInput? && |v.text| == 1
    case String => v.TextInput?
    case Object => v.OtherInput?
    case Empty | DBNull => false
    case _ => (v.IntegerInput? && IntegerFits(code, v.i)) || v.OtherInput?
  }

  /** The codes no case of the `Set` switch (and no case of the `Get` switch) handles. */
  predicate Unhandled(code: TypeCode) {
    code == Empty || code == Object || code == DBNull
  }

  /** The kinds a value of type code `code` may be written as: the classification table. */
  predicate WritableAs(code: TypeCode, kind: VariableKind) {
    match code
    case Boolean => kind == Bool
    case DateTime => kind == Date
    case Single | Double | Decimal => kind == Dec
    case Char | String => kind == Txt
    case Byte | Int16 | UInt16 | SByte => kind == Short
    case Int32 | UInt32 | Int64 | UInt64 => kind == Int || kind == Dec
    case _ => false
  }

  /** The kind of host variable a setter argument is written as. */
  function KindOf(hv: HostValue): VariableKind {
    match hv
    case SmallIntValue(_) => Short
    case IntValue(_) => Int
    case TextValue(_) => Txt
    case DecimalValue(_) => Dec
    case BooleanValue(_) => Bool
    case DateValue(_) => Date
  }

  /** A setter argument within its .NET type: `short`, `int` or `decimal`. */
  predicate InRange(hv: HostValue) {
    match hv
    case SmallIntValue(s) => InInt16(s)
    case IntValue(i) => InInt32(i)
    case DecimalValue(d) => ValidDecimal(d)
    case _ => true
  }

  /**
   * The `switch (code)` of the private `Set`: parse the value's text for the
   * kind the type code selects. Booleans, dates, decimals and small integers
   * raise their parse errors; 32/64-bit integers that overflow `int` fall
   * back to `decimal`; codes no case names do nothing.
   */
  function Classify(code: TypeCode, v: Value, culture: Culture): (r: Outcome)
    ensures r.Ignore? <==> Unhandled(code)
    ensures r.Write? ==> WritableAs(code, KindOf(r.value)) && InRange(r.value)
  {
    var text := ToText(v, culture);
    match code
    case Boolean => BooleanOutcome(text)
    case DateTime => DateOutcome(TrimQuotes(text), culture)
    case Single | Decimal | Double => DecimalOutcome(text)
    case Char | String => TextOutcome(text)
    case Byte | Int16 | UInt16 | SByte => ShortOutcome(text)
    case Int32 | UInt32 | Int64 | UInt64 => IntOutcome(text)
    case _ => Ignore
  }

  /**
   * `SetText(name, text.Trim('"'))`: always a TXT write, of a text that
   * neither starts nor ends with a double quote, and of the text itself
   * when it had none at either end.
   */
  function TextOutcome(text: string): (r: Outcome)
    ensures r.Write? && r.value.TextValue?
    ensures var t := r.value.text; t == [] || (t[0] != '"' && t[|t| - 1] != '"')
    ensures (text == [] || (text[0] != '"' && text[|text| - 1] != '"')) ==> r == Write(TextValue(text))
  {
    TrimQuotesUnquoted(text);
    Write(TextValue(TrimQuotes(text)))
  }

  /** `SetBoolean(name, bool.Parse(text))`. */
  function BooleanOutcome(text: string): (r: Outcome)
    ensures r.Write? || r == Raise(FormatError)
    ensures r.Write? ==> r.value.BooleanValue? && BoolToString(r.value.boolean) == text
    ensures ParseBool(text).Some? ==> r == Write(BooleanValue(ParseBool(text).value))
    ensures ParseBool(text).None? ==> r == Raise(FormatError)
  {
    match ParseBool(text)
    case Some(b) => Write(BooleanValue(b))
    case None => Raise(FormatError)
  }

  /** `SetDate(name, DateTime.Parse(text))`. */
  function DateOutcome(text: string, culture: Culture): (r: Outcome)
    ensures r.Write? || r == Raise(FormatError)
    ensures r.Write? ==> r.value.DateValue?
    ensures culture.parseDate(text).Some? ==> r == Write(DateValue(culture.parseDate(text).value))
    ensures culture.parseDate(text).None? ==> r == Raise(FormatError)
  {
    match culture.parseDate(text)
    case Some(m) => Write(DateValue(m))
    case None => Raise(FormatError)
  }

  /** `SetDecimal(name, decimal.Parse(text))`. */
  function DecimalOutcome(text: string): (r: Outcome)
    ensures r.Write? || r.Raise?
    ensures r.Write? ==> r.value.DecimalValue? && ValidDecimal(r.value.decimal)
    ensures ParseDecimal(text).Ok? ==> r == Write(DecimalValue(ParseDecimal(text).value))
    ensures ParseDecimal(text).Err? ==> r == Raise(ParseDecimal(text).error)
  {
    match ParseDecimal(text)
    case Ok(d) => Write(DecimalValue(d))
    case Err(e) => Raise(e)
  }

  /** `SetShort(name, short.Parse(text))`, with no handler. */
  function ShortOutcome(text: string): (r: Outcome)
    ensures r.Write? || r.Raise?
    ensures r.Write? ==> r.value.SmallIntValue? && InInt16(r.value.short)
    ensures ParseInt16(text).Ok? ==> r == Write(SmallIntValue(ParseInt16(text).value))
    ensures ParseInt16(text).Err? ==> r == Raise(ParseInt16(text).error)
  {
    match ParseInt16(text)
    case Ok(s) => Write(SmallIntValue(s))
    case Err(e) => Raise(e)
  }

  /**
   * `SetInt(name, int.Parse(text))`, and when that overflows,
   * `SetDecimal(name, decimal.Parse(text))`. A format error is not caught.
   */
  function IntOutcome(text: string): (r: Outcome)
    ensures r.Write? || r.Raise?
    ensures r.Write? ==>
              || (r.value.IntValue? && InInt32(r.value.int32))
              || (r.value.DecimalValue? && ValidDecimal(r.value.decimal))
    ensures r.Write? && r.value.DecimalValue? ==> ParseInt32(text) == Err(OverflowError)
    ensures ParseInt32(text).Ok? ==> r == Write(IntValue(ParseInt32(text).value))
    ensures ParseInt32(text) == Err(FormatError) ==> r == Raise(FormatError)
    ensures ParseInt32(text) == Err(OverflowError) ==>
              && (ParseDecimal(text).Ok? ==> r == Write(DecimalValue(ParseDecimal(text).value)))
              && (ParseDecimal(text).Err? ==> r == Raise(ParseDecimal(text).error))
  {
    match ParseInt32(text)
    case Ok(i) => Write(IntValue(i))
    case Err(FormatError) => Raise(FormatError)
    case Err(OverflowError) => DecimalOutcome(text)
  }

  /** The text the cache records for a setter argument: the typed value's `ToString()`. */
  function Render(hv: HostValue, culture: Culture): (text: string)
    ensures hv.SmallIntValue? && InInt16(hv.short) ==> ParseInt16(text) == Ok(hv.short)
    ensures hv.IntValue? && InInt32(hv.int32) ==> ParseInt32(text) == Ok(hv.int32)
    ensures hv.DecimalValue? && ValidDecimal(hv.decimal) ==> ParseDecimal(text) == Ok(hv.decimal)
    ensures hv.BooleanValue? ==> ParseBool(text) == Some(hv.boolean)
    ensures hv.TextValue? ==> text == hv.text
  {
    match hv
    case SmallIntValue(s) => ParseInt16OfIntToString(s); IntToString(s)
    case IntValue(i) => ParseInt32OfIntToString(i); IntToString(i)
    case TextValue(t) => t
    case DecimalValue(d) => (if ValidDecimal(d) then ParseFormatDecimal(d); FormatDecimal(d) else FormatDecimal(d))
    case BooleanValue(b) => BoolToString(b)
    case DateValue(m) => culture.formatDate(m)
  }

  /** The case of the `Set` switch the 8- and 16-bit codes take, for any of them. */
  lemma ClassifyShortCase(code: TypeCode, v: Value, culture: Culture)
    requires IsShortCode(code)
    ensures Classify(code, v, culture) == ShortOutcome(ToText(v, culture))
  {
    ClassifyShortCases(v, culture);
  }

  /** The case of the `Set` switch the 32- and 64-bit codes take, for any of them. */
  lemma ClassifyIntCase(code: TypeCode, v: Value, culture: Culture)
    requires IsIntCode(code)
    ensures Classify(code, v, culture) == IntOutcome(ToText(v, culture))
  {
    ClassifyIntCases(v, culture);
  }

  /** The case of the `Set` switch the 8- and 16-bit codes take. */
  lemma ClassifyShortCases(v: Value, culture: Culture)
    ensures Classify(Byte, v, culture) == ShortOutcome(ToText(v, culture))
    ensures Classify(Int16, v, culture) == ShortOutcome(ToText(v, culture))
    ensures Classify(UInt16, v, culture) == ShortOutcome(ToText(v, culture))
    ensures Classify(SByte, v, culture) == ShortOutcome(ToText(v, culture))
  {
  }

  /** The case of the `Set` switch the 32- and 64-bit codes take. */
  lemma ClassifyIntCases(v: Value, culture: Culture)
    ensures Classify(Int32, v, culture) == IntOutcome(ToText(v, culture))
    ensures Classify(UInt32, v, culture) == IntOutcome(ToText(v, culture))
    ensures Classify(Int64, v, culture) == IntOutcome(ToText(v, culture))
    ensures Classify(UInt64, v, culture) == IntOutcome(ToText(v, culture))
  {
  }

  /**
   * A 32/64-bit integer is written as INT when it fits `int` and otherwise
   * as a DEC of the same value; either way the cache records its digits.
   */
  lemma ClassifyIntCode(code: TypeCode, i: int, culture: Culture)
    requires IsIntCode(code) && IntegerFits(code, i)
    ensures Classify(code, IntegerInput(i), culture)
         == if InInt32(i) then Write(IntValue(i)) else Write(DecimalValue(Numbers.Decimal(i, 0)))
    ensures Render(Classify(code, IntegerInput(i), culture).value, culture) == IntToString(i)
  {
    var text := IntToString(i);
    ClassifyIntCase(code, IntegerInput(i), culture);
    ParseInt32OfIntToString(i);
    if !InInt32(i) {
      ParseDecimalOfIntToString(i);
      assert IntOutcome(text) == DecimalOutcome(text);
    }
  }

  /**
   * A byte, sbyte, short or ushort is written as SHORT when it fits `short`;
   * otherwise (a ushort above 32767) `short.Parse` overflows and nothing
   * catches it.
   */
  lemma ClassifyShortCode(code: TypeCode, i: int, culture: Culture)
    requires IsShortCode(code)
    ensures Classify(code, IntegerInput(i), culture)
         == if InInt16(i) then Write(SmallIntValue(i)) else Raise(OverflowError)
  {
    ClassifyShortCase(code, IntegerInput(i), culture);
    ParseInt16OfIntToString(i);
  }

  /**
   * An enum whose text is its member name, under an integer type code:
   * `short.Parse` or `int.Parse` throws a format error, which the overflow
   * handler does not catch.
   */
  lemma ClassifyEnumName(code: TypeCode, name: string, culture: Culture)
    requires IsShortCode(code) || IsIntCode(code)
    requires ParseInteger(name).None?
    ensures Classify(code, OtherInput(name), culture) == Raise(FormatError)
  {
    if IsShortCode(code) {
      ClassifyShortCase(code, OtherInput(name), culture);
      assert ShortOutcome(name) == Raise(FormatError);
    } else {
      ClassifyIntCase(code, OtherInput(name), culture);
      assert IntOutcome(name) == Raise(FormatError);
    }
  }

  /** Chars and strings are written as TXT with their surrounding double quotes trimmed (see `TrimQuotes`). */
  lemma ClassifyText(code: TypeCode, text: string, culture: Culture)
    requires code == Char || code == String
    ensures Classify(code, TextInput(text), culture) == Write(TextValue(TrimQuotes(text)))
  {
    ClassifyTextCases(text, culture);
    assert TextOutcome(text) == Write(TextValue(TrimQuotes(text)));
  }

  /** The case of the `Set` switch the char and string codes take. */
  lemma ClassifyTextCases(text: string, culture: Culture)
    ensures Classify(Char, TextInput(text), culture) == TextOutcome(text)
    ensures Classify(String, TextInput(text), culture) == TextOutcome(text)
  {
    assert Classify(Char, TextInput(text), culture) == TextOutcome(text);
  }

  /** A boolean is written as BOOL with its own value. */
  lemma ClassifyBoolean(b: bool, culture: Culture)
    ensures Classify(Boolean, BoolInput(b), culture) == Write(BooleanValue(b))
  {
  }

  /** A decimal is written as DEC with its own value, scale included. */
  lemma ClassifyDecimal(d: Numbers.Decimal, culture: Culture)
    requires ValidDecimal(d)
    ensures Classify(TypeCode.Decimal, FloatingInput(FormatDecimal(d)), culture) == Write(DecimalValue(d))
  {
    ParseFormatDecimal(d);
    ClassifyDecimalText(TypeCode.Decimal, FormatDecimal(d), culture);
  }

  /**
   * The text of a float, double or decimal: what `decimal.Parse` accepts is
   * written as DEC with the value it parses to, and anything else (`NaN`,
   * an exponent) raises the parse's own error, which nothing catches.
   */
  lemma ClassifyDecimalText(code: TypeCode, text: string, culture: Culture)
    requires code == Single || code == Double || code == TypeCode.Decimal
    ensures ParseDecimal(text).Ok? ==>
              Classify(code, FloatingInput(text), culture) == Write(DecimalValue(ParseDecimal(text).value))
    ensures ParseDecimal(text).Err? ==>
              Classify(code, FloatingInput(text), culture) == Raise(ParseDecimal(text).error)
  {
    ClassifyFloatingCases(FloatingInput(text), culture);
    assert ToText(FloatingInput(text), culture) == text;
  }

  /** The case of the `Set` switch the float, double and decimal codes take. */
  lemma ClassifyFloatingCases(v: Value, culture: Culture)
    ensures Classify(Single, v, culture) == DecimalOutcome(ToText(v, culture))
    ensures Classify(Double, v, culture) == DecimalOutcome(ToText(v, culture))
    ensures Classify(TypeCode.Decimal, v, culture) == DecimalOutcome(ToText(v, culture))
  {
  }

  /** A date is written as DATE with its own value when the culture reads back what it writes. */
  lemma ClassifyDate(m: Moment, culture: Culture)
    requires culture.parseDate(TrimQuotes(culture.formatDate(m))) == Some(m)
    ensures Classify(DateTime, DateInput(m), culture) == Write(DateValue(m))
  {
    ClassifyDateText(m, culture);
  }

  /**
   * Whatever the culture: the DATE written is the moment the culture parses
   * from its own trimmed text of the date, and a text it cannot read back
   * raises FormatError, which nothing catches.
   */
  lemma ClassifyDateText(m: Moment, culture: Culture)
    ensures var parsed := culture.parseDate(TrimQuotes(culture.formatDate(m)));
            && (parsed.Some? ==> Classify(DateTime, DateInput(m), culture) == Write(DateValue(parsed.value)))
            && (parsed.None? ==> Classify(DateTime, DateInput(m), culture) == Raise(FormatError))
  {
    assert ToText(DateInput(m), culture) == culture.formatDate(m);
    assert Classify(DateTime, DateInput(m), culture)
        == DateOutcome(TrimQuotes(culture.formatDate(m)), culture);
  }

  // ---------------------------------------------------------------- the Get switch

  /**
   * The `switch (code)` of `Get`: which host getter a read of a type-`code`
   * variable calls; none for the codes no case names, where `Get` returns the
   * default value.
   */
  function GetRoute(code: TypeCode): (r: Option<VariableKind>)
    ensures r.None? <==> Unhandled(code)
  {
    match code
    case Boolean => Some(Bool)
    case DateTime => Some(Date)
    case Single | Decimal | Double | Int64 | UInt64 => Some(Dec)
    case Char | String => Some(Txt)
    case Byte | Int16 | UInt16 | SByte => Some(Short)
    case Int32 | UInt32 => Some(Int)
    case _ => None
  }

  /**
   * `Get` reads back the kind `Set` wrote, except for the two integer cases
   * where the switches disagree: a long or ulong that `Set` wrote as INT is
   * read from DEC, and an int or uint that `Set` wrote as DEC is read from INT.
   */
  lemma GetReadsWhatSetWrote(code: TypeCode, v: Value, culture: Culture)
    ensures var r := Classify(code, v, culture);
            r.Write? ==>
              (GetRoute(code) == Some(KindOf(r.value)) <==>
                 && !((code == Int64 || code == UInt64) && KindOf(r.value) == Int)
                 && !((code == Int32 || code == UInt32) && KindOf(r.value) == Dec))
  {
    var r := Classify(code, v, culture);
    if r.Write? {
      GetRouteOfWritable(code, KindOf(r.value));
    }
  }

  /** For a kind `Set` may write under `code`, whether `Get` reads that same kind. */
  lemma GetRouteOfWritable(code: TypeCode, kind: VariableKind)
    requires WritableAs(code, kind)
    ensures GetRoute(code) == Some(kind) <==>
              && !((code == Int64 || code == UInt64) && kind == Int)
              && !((code == Int32 || code == UInt32) && kind == Dec)
  {
  }

  /** The asymmetry made concrete: a ulong that fits `int` is written as INT and read from DEC. */
  lemma WideIntegerReadsDecimal(code: TypeCode, i: int, culture: Culture)
    requires (code == Int64 || code == UInt64) && IntegerFits(code, i) && InInt32(i)
    ensures Classify(code, IntegerInput(i), culture) == Write(IntValue(i))
    ensures GetRoute(code) == Some(Dec)
  {
    ClassifyIntCode(code, i, culture);
  }

  /** And a uint above `int.MaxValue` is written as DEC and read from INT. */
  lemma LargeUInt32ReadsInt(i: int, culture: Culture)
    requires MaxInt32 < i <= 0xFFFF_FFFF
    ensures Classify(UInt32, IntegerInput(i), culture) == Write(DecimalValue(Numbers.Decimal(i, 0)))
    ensures GetRoute(UInt32) == Some(Int)
  {
    ClassifyIntCode(UInt32, i, culture);
  }
}
