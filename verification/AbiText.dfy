/** Printing and parsing of contract values (client/sdk/src/parser.rs). */
module AbiText {
  import opened Wrappers
  import opened Bytes
  import opened TreeTypes
  import opened TextFormat

  datatype AbiType =
    | U32Type
    | FieldType
    | BoolType
    | HashType
    | AddressType
    | StringType
    | FieldsType
    | ArrayOf(item: AbiType)
    | FixedArrayOf(item: AbiType, size: nat)
    | TupleOf(attrs: seq<Attr>)
  {
    predicate Composite() {
      ArrayOf? || FixedArrayOf? || TupleOf?
    }
  }

  datatype Attr = Attr(name: string, type_: AbiType)

  datatype NamedValue = NamedValue(name: string, value: Value)

  /** A hash is four words, as in the tree. */
  datatype Value =
    | U32(number: u64)
    | Field(number: u64)
    | Bool(truth: bool)
    | Hash(words: TreeKey)
    | Address(words: TreeKey)
    | Text(text: string)
    | Fields(numbers: seq<u64>)
    | Array(items: seq<Value>, itemType: AbiType)
    | FixedArray(items: seq<Value>, itemType: AbiType)
    | Tuple(fields: seq<NamedValue>)
  {
    predicate Nested() {
      Array? || FixedArray? || Tuple?
    }
  }

  // ---------------------------------------------------------------- Printing

  /** None stands for a panic. */
  ghost function Print(v: Value): Option<string>
    decreases v
  {
    match v
    case U32(n) => Some(Decimal(n % U32_LIMIT))
    case Field(n) => if n > FIELD_ORDER then None else Some(Decimal(n))
    case Bool(b) => Some(if b then "true" else "false")
    case Hash(k) => Some(HexEncode(ToBytes(k)))
    case Address(k) => Some(HexEncode(ToBytes(k)))
    case Text(s) => Some(s)
    case Fields(ns) => FieldsText(ns)
    case Array(items, t) => if t.Composite() then None else Enclosed('[', Printed(items), ']')
    case FixedArray(items, t) => if t.Composite() then None else Enclosed('[', Printed(items), ']')
    case Tuple(fields) => Enclosed('{', PrintedFields(fields), '}')
  }

  ghost function Printed(items: seq<Value>): (parts: Option<seq<string>>)
    ensures parts.Some? <==> forall i :: 0 <= i < |items| ==> Print(items[i]).Some?
    ensures parts.Some? ==> |parts.value| == |items| && forall i :: 0 <= i < |items| ==>
              parts.value[i] == Print(items[i]).value
    decreases items
  {
    if items == [] then Some([])
    else
      var init, last := Printed(items[..|items| - 1]), Print(items[|items| - 1]);
      if init.Some? && last.Some? then Some(init.value + [last.value]) else None
  }

  /** The fields of a tuple by name; hashes and strings are quoted, and nothing nested is printed. */
  ghost function PrintedFields(fields: seq<NamedValue>): (parts: Option<seq<string>>)
    ensures parts.Some? ==>
              && |parts.value| == |fields|
              && forall i :: 0 <= i < |fields| ==>
                   && Print(fields[i].value).Some?
                   && parts.value[i] == FieldText(fields[i].name, fields[i].value, Print(fields[i].value).value)
    decreases fields
  {
    if fields == [] then Some([])
    else
      var init, NamedValue(name, v) := PrintedFields(fields[..|fields| - 1]), fields[|fields| - 1];
      if init.None? || v.Nested() || Print(v).None? then None
      else Some(init.value + [FieldText(name, v, Print(v).value)])
  }

  function FieldText(name: string, v: Value, printed: string): string {
    if v.Hash? || v.Address? then "\"" + name + "\": \"0x" + printed + "\""
    else if v.Text? then "\"" + name + "\": \"" + printed + "\""
    else "\"" + name + "\": " + printed
  }

  /** A list of field elements: their digits one after the other, without a separator. */
  function FieldsText(ns: seq<u64>): Option<string> {
    if ns == [] then Some("0x")
    else
      var init, n := FieldsText(ns[..|ns| - 1]), ns[|ns| - 1];
      if init.None? || n > FIELD_ORDER then None else Some(init.value + LowerHex(n))
  }

  /** Each part ends with a comma; the last character is popped before the closing bracket, which
      without any part is the opening bracket. */
  function Enclosed(open: char, parts: Option<seq<string>>, close: char): Option<string> {
    if parts.None? then None
    else
      var s := [open] + Terminated(parts.value);
      Some(s[..|s| - 1] + [close])
  }

  /** `FromValue::parse_input`. */
  method PrintInput(v: Value) returns (r: Option<string>)
    ensures r == Print(v)
    decreases v
  {
    match v
    case U32(n) => r := Some(Decimal(n % U32_LIMIT));
    case Field(n) => r := if n > FIELD_ORDER then None else Some(Decimal(n));
    case Bool(b) => r := Some(if b then "true" else "false");
    case Hash(k) => r := Some(HexEncode(ToBytes(k)));
    case Address(k) => r := Some(HexEncode(ToBytes(k)));
    case Text(s) => r := Some(s);
    case Fields(ns) => r := PrintFieldElements(ns);
    case Array(items, t) =>
      if t.Composite() {
        r := None;
      } else {
        r := PrintItems(items);
      }
    case FixedArray(items, t) =>
      if t.Composite() {
        r := None;
      } else {
        r := PrintItems(items);
      }
    case Tuple(fields) => r := PrintTuple(fields);
  }

  method PrintFieldElements(ns: seq<u64>) returns (r: Option<string>)
    ensures r == FieldsText(ns)
  {
    var ret := "0x";
    for i := 0 to |ns|
      invariant FieldsText(ns[..i]) == Some(ret)
    {
      TakeNext(ns, i);
      if ns[i] > FIELD_ORDER {
        FieldOutOfRange(ns, i);
        return None;
      }
      ret := ret + LowerHex(ns[i]);
    }
    TakeAll(ns);
    r := Some(ret);
  }

  lemma {:induction false} FieldOutOfRange(ns: seq<u64>, i: nat)
    requires i < |ns| && ns[i] > FIELD_ORDER
    ensures FieldsText(ns).None?
  {
    if i < |ns| - 1 {
      FieldOutOfRange(ns[..|ns| - 1], i);
    }
  }

  lemma NothingPrintedYet(fields: seq<NamedValue>)
    ensures PrintedFields(fields[..0]) == Some([]) && "{" + Terminated([]) == "{"
  {
  }

  lemma {:induction false} FieldNotPrinted(fields: seq<NamedValue>, i: nat)
    requires i < |fields| && (fields[i].value.Nested() || Print(fields[i].value).None?)
    ensures PrintedFields(fields).None?
  {
    if i < |fields| - 1 {
      FieldNotPrinted(fields[..|fields| - 1], i);
    }
  }

  lemma PrintedFieldNext(fields: seq<NamedValue>, i: nat)
    requires i < |fields| && PrintedFields(fields[..i]).Some?
    requires !fields[i].value.Nested() && Print(fields[i].value).Some?
    ensures PrintedFields(fields[..i + 1]).Some?
    ensures Terminated(PrintedFields(fields[..i + 1]).value)
         == Terminated(PrintedFields(fields[..i]).value)
            + FieldText(fields[i].name, fields[i].value, Print(fields[i].value).value) + ","
  {
    TakeNext(fields, i);
    var init, last := PrintedFields(fields[..i]).value,
        FieldText(fields[i].name, fields[i].value, Print(fields[i].value).value);
    assert PrintedFields(fields[..i + 1]).value == init + [last];
    assert (init + [last])[..i] == init;
  }

  /** The loop over the fields of a tuple. */
  method PrintTuple(fields: seq<NamedValue>) returns (r: Option<string>)
    ensures r == Enclosed('{', PrintedFields(fields), '}')
    decreases fields
  {
    hide Print, PrintedFields, Terminated;
    var ret := "{";
    NothingPrintedYet(fields);
    for i := 0 to |fields|
      invariant PrintedFields(fields[..i]).Some? && ret == "{" + Terminated(PrintedFields(fields[..i]).value)
    {
      var NamedValue(name, v) := fields[i];
      if v.Nested() {
        FieldNotPrinted(fields, i);
        return None;
      }
      var s := PrintInput(v);
      if s.None? {
        FieldNotPrinted(fields, i);
        return None;
      }
      PrintedFieldNext(fields, i);
      ret := ret + FieldText(name, v, s.value) + ",";
    }
    TakeAll(fields);
    r := Some(ret[..|ret| - 1] + "}");
  }

  lemma NothingPrinted(items: seq<Value>)
    ensures Printed(items[..0]) == Some([]) && "[" + Terminated([]) == "["
  {
  }

  lemma PrintedNext(items: seq<Value>, i: nat)
    requires i < |items| && Printed(items[..i]).Some?
    ensures Print(items[i]).None? ==> Printed(items).None?
    ensures Print(items[i]).Some? ==>
              && Printed(items[..i + 1]).Some?
              && Terminated(Printed(items[..i + 1]).value)
                 == Terminated(Printed(items[..i]).value) + Print(items[i]).value + ","
  {
    TakeNext(items, i);
    if Print(items[i]).Some? {
      assert Printed(items[..i + 1]).value == Printed(items[..i]).value + [Print(items[i]).value];
      assert Printed(items[..i + 1]).value[..i] == Printed(items[..i]).value;
    }
  }

  /** The loop over the items, on a string that grows. */
  method PrintItems(items: seq<Value>) returns (r: Option<string>)
    ensures r == Enclosed('[', Printed(items), ']')
    decreases items
  {
    hide Print, Printed, Terminated;
    var ret := "[";
    NothingPrinted(items);
    for i := 0 to |items|
      invariant Printed(items[..i]).Some? && ret == "[" + Terminated(Printed(items[..i]).value)
    {
      PrintedNext(items, i);
      var s := PrintInput(items[i]);
      if s.None? {
        return None;
      }
      ret := ret + s.value + ",";
    }
    TakeAll(items);
    r := Some(ret[..|ret| - 1] + "]");
  }

  // ---------------------------------------------------------------- Printed texts

  lemma EnclosedParts(open: char, parts: seq<string>, close: char, s: string)
    requires Terminated(parts) == s + ","
    ensures Enclosed(open, Some(parts), close) == Some([open] + s + [close])
  {
    var t := [open] + Terminated(parts);
    assert t[..|t| - 1] == [open] + s;
  }

  lemma TwoEnclosed(open: char, parts: seq<string>, close: char, a: string, b: string)
    requires Terminated(parts) == a + "," + b + ","
    ensures Enclosed(open, Some(parts), close) == Some([open] + a + "," + b + [close])
  {
    EnclosedParts(open, parts, close, a + "," + b);
    hide Enclosed, Terminated;
    assert [open] + (a + "," + b) + [close] == [open] + a + "," + b + [close];
  }

  lemma TwoPrinted(v: Value, w: Value)
    requires Print(v).Some? && Print(w).Some?
    ensures Printed([v, w]).Some?
    ensures Terminated(Printed([v, w]).value) == Print(v).value + "," + Print(w).value + ","
  {
    var items := [v, w];
    NothingPrinted(items);
    PrintedNext(items, 0);
    PrintedNext(items, 1);
    assert items[..2] == items && Terminated([]) == "";
    hide *;
    assert "" + Print(v).value == Print(v).value;
  }

  lemma PrintedList(items: seq<Value>, t: AbiType)
    requires !t.Composite()
    ensures Print(Array(items, t)) == Print(FixedArray(items, t)) == Enclosed('[', Printed(items), ']')
  {
    hide Printed, Enclosed;
  }

  /** A list of two: the texts of the items between brackets, with a comma and no space. */
  lemma ListText(v: Value, w: Value, t: AbiType)
    requires !t.Composite() && Print(v).Some? && Print(w).Some?
    ensures Print(Array([v, w], t)) == Some("[" + Print(v).value + "," + Print(w).value + "]")
    ensures Print(FixedArray([v, w], t)) == Print(Array([v, w], t))
  {
    PrintedList([v, w], t);
    hide *;
    TwoPrinted(v, w);
    TwoEnclosed('[', Printed([v, w]).value, ']', Print(v).value, Print(w).value);
  }

  /** A tuple of two: its fields between braces, with a comma and no space. */
  lemma TupleText(v: NamedValue, w: NamedValue)
    requires Print(v.value).Some? && Print(w.value).Some? && !v.value.Nested() && !w.value.Nested()
    ensures Print(Tuple([v, w]))
         == Some("{" + FieldText(v.name, v.value, Print(v.value).value) + ","
                 + FieldText(w.name, w.value, Print(w.value).value) + "}")
  {
    var fields := [v, w];
    PrintedTuple(fields);
    NothingPrintedYet(fields);
    PrintedFieldNext(fields, 0);
    PrintedFieldNext(fields, 1);
    assert fields[..2] == fields && Terminated([]) == "";
    var first, second := FieldText(v.name, v.value, Print(v.value).value),
        FieldText(w.name, w.value, Print(w.value).value);
    hide *;
    assert "" + first == first;
    TwoEnclosed('{', PrintedFields(fields).value, '}', first, second);
  }

  /** A field: its name quoted, a colon, a space and the text, which is quoted for strings and hashes,
      for hashes with `0x` before it. */
  lemma FieldTexts(k: TreeKey)
    ensures FieldText("a", U32(42), "42") == FieldText("a", Field(42), "42") == "\"a\": 42"
    ensures FieldText("a", Bool(true), "true") == "\"a\": true"
    ensures FieldText("a", Text("b,c"), "b,c") == "\"a\": \"b,c\""
    ensures FieldText("a", Hash(k), "00ff") == FieldText("a", Address(k), "00ff") == "\"a\": \"0x00ff\""
    ensures FieldText("a", Fields([1]), "0x1") == "\"a\": 0x1"
  {
  }

  /** Numbers in decimal, truncated to 32 bits or up to the order of the field; hashes and addresses in
      hexadecimal. */
  lemma ScalarText(k: TreeKey)
    ensures Print(U32(0x1_0000_0007)) == Print(Field(7)) == Some("7")
    ensures Print(Field(18446744069414584321)).Some? && Print(Field(18446744069414584322)) == None
    ensures Print(Bool(true)) == Some("true") && Print(Bool(false)) == Some("false")
    ensures Print(Hash(k)) == Print(Address(k)) == Some(HexEncode(ToBytes(k))) && Print(Text("a,b")) == Some("a,b")
  {
    hide HexEncode, ToBytes;
    assert Decimal(7) == "7";
  }

  /** Without anything in it a list or a tuple loses its opening bracket, and lists of lists do not print. */
  lemma EmptyText(t: AbiType)
    ensures Print(Array([], t)) == Print(FixedArray([], t)) == if t.Composite() then None else Some("]")
    ensures Print(Tuple([])) == Some("}") && Print(Fields([])) == Some("0x")
  {
    EnclosedContent('[', [], ']');
    EnclosedContent('{', [], '}');
    hide Enclosed;
  }

  /** Field elements follow each other without anything between them. */
  lemma FieldsConcat(ns: seq<u64>, n: u64)
    requires FieldsText(ns).Some?
    ensures FieldsText(ns + [n])
         == if n <= 18446744069414584321 then Some(FieldsText(ns).value + LowerHex(n)) else None
  {
    assert (ns + [n])[..|ns|] == ns;
  }

  // ---------------------------------------------------------------- Parsing

  function ParseHash(s: string): Option<Value> {
    match HashFromHex(s)
    case None => None
    case Some(bytes) => Some(Hash(FromBytes(bytes)))
  }

  /** The order itself passes the range check. */
  function ParseField(s: string): Option<Value> {
    match ParseUnsigned(s, LIMB)
    case None => None
    case Some(n) => if n > FIELD_ORDER then None else Some(Field(n))
  }

  /** `ToValue::parse_input`; None stands for a panic. */
  function Parse(t: AbiType, s: string): Option<Value>
    decreases t, 0
  {
    match t
    case U32Type => (match ParseUnsigned(s, U32_LIMIT) case None => None case Some(n) => Some(U32(n)))
    case FieldType => ParseField(s)
    case BoolType => if s == "true" then Some(Bool(true)) else if s == "false" then Some(Bool(false)) else None
    case HashType => ParseHash(s)
    case AddressType => ParseHash(s)
    case StringType => Some(Text(s))
    case FieldsType =>
      if !Bracketed(s) then None
      else (match ParseNumbers(Split(Content(s))) case None => None case Some(ns) => Some(Fields(ns)))
    case ArrayOf(item) =>
      if item.Composite() || !Bracketed(s) then None
      else (match ParseItems(item, Split(Content(s))) case None => None case Some(items) => Some(Array(items, item)))
    case FixedArrayOf(item, size) =>
      if item.Composite() || !Bracketed(s) || |Split(Content(s))| != size then None
      else (match ParseItems(item, Split(Content(s)))
            case None => None
            case Some(items) => Some(FixedArray(items, item)))
    case TupleOf(attrs) =>
      if !Braced(s) || |Split(Content(s))| != |attrs| then None
      else (match ParseFields(attrs, Split(Content(s))) case None => None case Some(fields) => Some(Tuple(fields)))
  }

  function ParseNumbers(parts: seq<string>): (ns: Option<seq<u64>>) {
    if parts == [] then Some([])
    else
      var init, last := ParseNumbers(parts[..|parts| - 1]), ParseField(parts[|parts| - 1]);
      if init.Some? && last.Some? then Some(init.value + [last.value.number]) else None
  }

  function ParseFields(attrs: seq<Attr>, parts: seq<string>): (fields: Option<seq<NamedValue>>)
    requires |attrs| == |parts|
    ensures fields.Some? ==>
              && |fields.value| == |attrs|
              && forall i :: 0 <= i < |attrs| ==>
                   !attrs[i].type_.Composite() && Parse(attrs[i].type_, parts[i]) == Some(fields.value[i].value)
    decreases attrs, 1
  {
    if attrs == [] then Some([])
    else
      var n := |attrs| - 1;
      var init, Attr(name, t) := ParseFields(attrs[..n], parts[..n]), attrs[n];
      if init.None? || t.Composite() || Parse(t, parts[n]).None? then None
      else Some(init.value + [NamedValue(name, Parse(t, parts[n]).value)])
  }

  predicate Bracketed(s: string) {
    s != "" && s[0] == '[' && s[|s| - 1] == ']'
  }

  predicate Braced(s: string) {
    s != "" && s[0] == '{' && s[|s| - 1] == '}'
  }

  function Content(s: string): string
    requires Bracketed(s) || Braced(s)
  {
    s[1..|s| - 1]
  }

  function ParseItems(t: AbiType, parts: seq<string>): (items: Option<seq<Value>>)
    ensures items.Some? <==> forall i :: 0 <= i < |parts| ==> Parse(t, parts[i]).Some?
    ensures items.Some? ==> |items.value| == |parts| && forall i :: 0 <= i < |parts| ==>
              items.value[i] == Parse(t, parts[i]).value
    decreases t, 1, |parts|
  {
    if parts == [] then Some([])
    else
      var init, last := ParseItems(t, parts[..|parts| - 1]), Parse(t, parts[|parts| - 1]);
      if init.Some? && last.Some? then Some(init.value + [last.value]) else None
  }

  // ---------------------------------------------------------------- Parsed texts

  lemma SplitTwo(p: string, q: string)
    requires NoComma(p) && NoComma(q)
    ensures Split(p + "," + q) == [p, q]
  {
    SplitTerminated([p, q]);
    assert [p, q][..1] == [p] && [p][..0] == [];
    assert Terminated([p]) == p + ",";
    hide Split;
    var s := Terminated([p, q]);
    assert s[..|s| - 1] == p + "," + q;
  }

  /** Which texts give which number, truth value or hash; an address is parsed as a hash. */
  lemma ParsedScalars(s: string, n: u64, b: bool, k: TreeKey)
    ensures Parse(U32Type, s) == Some(U32(n)) <==> ParseUnsigned(s, 0x1_0000_0000) == Some(n)
    ensures Parse(FieldType, s) == Some(Field(n)) <==>
              ParseUnsigned(s, 0x1_0000_0000_0000_0000) == Some(n) && n <= 18446744069414584321
    ensures Parse(BoolType, s) == Some(Bool(b)) <==> s == if b then "true" else "false"
    ensures Parse(HashType, s) == Parse(AddressType, s) && Parse(StringType, s) == Some(Text(s))
    ensures Parse(HashType, s) == Some(Hash(k)) <==> HashFromHex(s) == Some(ToBytes(k))
  {
    hide ParseUnsigned, HashFromHex, ToBytes;
    KeyBytesRoundTrip(k);
    if HashFromHex(s).Some? {
      BytesKeyRoundTrip(HashFromHex(s).value);
    }
  }

  lemma NextNumber(parts: seq<string>, p: string)
    ensures ParseNumbers([]) == Some([])
    ensures ParseNumbers(parts + [p])
         == if ParseNumbers(parts).Some? && ParseField(p).Some?
            then Some(ParseNumbers(parts).value + [ParseField(p).value.number]) else None
  {
    assert (parts + [p])[..|parts|] == parts;
  }

  lemma TwoNumbers(p: string, q: string, n: u64, m: u64)
    requires ParseField(p) == Some(Field(n)) && ParseField(q) == Some(Field(m))
    ensures ParseNumbers([p, q]) == Some([n, m])
  {
    hide *;
    NextNumber([], p);
    NextNumber([p], q);
    assert [] + [p] == [p] && [p] + [q] == [p, q];
    var none: seq<u64>, one: seq<u64> := [], [n];
    assert ParseNumbers([]).value == none && none + [n] == one;
    assert ParseNumbers([p]) == Some(one) && one + [m] == [n, m];
  }

  lemma TwoItems(p: string, q: string, n: u64, m: u64)
    requires ParseField(p) == Some(Field(n)) && ParseField(q) == Some(Field(m))
    ensures ParseItems(FieldType, [p, q]) == Some([Field(n), Field(m)])
  {
    assert Parse(FieldType, p) == ParseField(p) && Parse(FieldType, q) == ParseField(q);
    hide *;
    var items := ParseItems(FieldType, [p, q]);
    assert [p, q][0] == p && [p, q][1] == q;
    assert items.value == [Field(n), Field(m)];
  }

  lemma BracketedText(p: string, q: string)
    ensures Bracketed("[" + p + "," + q + "]") && Content("[" + p + "," + q + "]") == p + "," + q
    ensures Braced("{" + p + "," + q + "}") && Content("{" + p + "," + q + "}") == p + "," + q
    ensures !Bracketed("{" + p + "," + q + "}") && !Braced("[" + p + "," + q + "]")
  {
  }

  /** A list of two field elements in brackets, as each of the three list types, and where it fails: the
      wrong size, or braces. */
  lemma {:induction false} ParsedList(p: string, q: string, n: u64, m: u64)
    requires NoComma(p) && NoComma(q) && Parse(FieldType, p) == Some(Field(n)) && Parse(FieldType, q) == Some(Field(m))
    ensures var s := "[" + p + "," + q + "]";
            && Parse(FieldsType, s) == Some(Fields([n, m]))
            && Parse(ArrayOf(FieldType), s) == Some(Array([Field(n), Field(m)], FieldType))
            && Parse(FixedArrayOf(FieldType, 2), s) == Some(FixedArray([Field(n), Field(m)], FieldType))
            && Parse(FixedArrayOf(FieldType, 3), s) == None && Parse(ArrayOf(ArrayOf(FieldType)), s) == None
    ensures Parse(ArrayOf(FieldType), "{" + p + "," + q + "}") == None
  {
    assert ParseField(p) == Some(Field(n)) && ParseField(q) == Some(Field(m));
    hide Split, ParseField, ParseNumbers, ParseItems, Content, Bracketed, NoComma;
    BracketedText(p, q);
    SplitTwo(p, q);
    TwoNumbers(p, q, n, m);
    TwoItems(p, q, n, m);
  }

  lemma NextField(attrs: seq<Attr>, parts: seq<string>, attr: Attr, p: string)
    requires |attrs| == |parts| && !attr.type_.Composite()
    ensures ParseFields([], []) == Some([])
    ensures ParseFields(attrs + [attr], parts + [p])
         == if ParseFields(attrs, parts).Some? && Parse(attr.type_, p).Some?
            then Some(ParseFields(attrs, parts).value + [NamedValue(attr.name, Parse(attr.type_, p).value)]) else None
  {
    assert (parts + [p])[..|parts|] == parts && (attrs + [attr])[..|attrs|] == attrs;
    hide Parse;
  }

  lemma TwoFields(a: Attr, b: Attr, p: string, q: string)
    requires !a.type_.Composite() && !b.type_.Composite() && Parse(a.type_, p).Some? && Parse(b.type_, q).Some?
    ensures ParseFields([a, b], [p, q])
         == Some([NamedValue(a.name, Parse(a.type_, p).value), NamedValue(b.name, Parse(b.type_, q).value)])
  {
    hide *;
    NextField([], [], a, p);
    NextField([a], [p], b, q);
    assert [] + [p] == [p] && [p] + [q] == [p, q] && [] + [a] == [a] && [a] + [b] == [a, b];
    var none: seq<NamedValue> := [];
    var first, second := NamedValue(a.name, Parse(a.type_, p).value), NamedValue(b.name, Parse(b.type_, q).value);
    assert ParseFields([], []).value == none && none + [first] == [first];
    assert ParseFields([a], [p]) == Some([first]) && [first] + [second] == [first, second];
  }

  /** A tuple of two in braces; the names come from the type. */
  lemma {:induction false} ParsedPair(a: Attr, b: Attr, p: string, q: string)
    requires !a.type_.Composite() && !b.type_.Composite() && Parse(a.type_, p).Some? && Parse(b.type_, q).Some?
    requires NoComma(p) && NoComma(q)
    ensures Parse(TupleOf([a, b]), "{" + p + "," + q + "}")
         == Some(Tuple([NamedValue(a.name, Parse(a.type_, p).value), NamedValue(b.name, Parse(b.type_, q).value)]))
    ensures Parse(TupleOf([a]), "{" + p + "," + q + "}") == None
    ensures Parse(TupleOf([a, b]), "[" + p + "," + q + "]") == None
  {
    ParsedAs([a, b], "{" + p + "," + q + "}");
    ParsedAs([a, b], "[" + p + "," + q + "]");
    ParsedAs([a], "{" + p + "," + q + "}");
    hide *;
    BracketedText(p, q);
    SplitTwo(p, q);
    TwoFields(a, b, p, q);
  }

  lemma ParsedAs(attrs: seq<Attr>, s: string)
    ensures Parse(TupleOf(attrs), s)
         == if !Braced(s) || |Split(Content(s))| != |attrs| || ParseFields(attrs, Split(Content(s))).None? then None
            else Some(Tuple(ParseFields(attrs, Split(Content(s))).value))
  {
    hide ParseFields, Split;
  }

  // ---------------------------------------------------------------- Round trips

  /** The values that parsing as a type can give. Addresses are parsed into hashes. */
  predicate HasType(v: Value, t: AbiType) {
    match t
    case U32Type => v.U32?
    case FieldType => v.Field?
    case BoolType => v.Bool?
    case HashType => v.Hash?
    case AddressType => v.Hash?
    case StringType => v.Text?
    case FieldsType => v.Fields?
    case TupleOf(attrs) => v.Tuple? && |v.fields| == |attrs| && forall i :: 0 <= i < |attrs| ==>
          !attrs[i].type_.Composite() && HasType(v.fields[i].value, attrs[i].type_)
    case ArrayOf(item) => v.Array? && v.itemType == item && !item.Composite() && forall i :: 0 <= i < |v.items| ==>
          HasType(v.items[i], item)
    case FixedArrayOf(item, _) =>
      && v.FixedArray? && v.itemType == item && !item.Composite()
      && forall i :: 0 <= i < |v.items| ==> HasType(v.items[i], item)
  }

  predicate ScalarSurvives(v: Value) {
    && (v.U32? ==> v.number < U32_LIMIT)
    && (v.Field? ==> v.number <= FIELD_ORDER)
    && !v.Fields?
  }

  predicate ItemSurvives(v: Value) {
    ScalarSurvives(v) && (v.Text? ==> NoComma(v.text))
  }

  predicate AllSurvive(items: seq<Value>) {
    items != [] && forall i :: 0 <= i < |items| ==> ItemSurvives(items[i])
  }

  /** What a caller must check before printing: numbers in range; lists not empty, of the declared
      size, and without commas in strings; no lists of field elements and no tuples. */
  predicate Survives(v: Value, t: AbiType) {
    && ScalarSurvives(v)
    && (v.Array? || v.FixedArray? ==> AllSurvive(v.items))
    && (v.FixedArray? && t.FixedArrayOf? ==> |v.items| == t.size)
    && !v.Tuple?
  }

  ghost predicate ComesBack(v: Value, t: AbiType) {
    Print(v).Some? && Parse(t, Print(v).value) == Some(v)
  }

  lemma NumberRoundTrip(n: nat, limit: nat)
    ensures ParseUnsigned(Decimal(n), limit) == if n < limit then Some(n) else None
    ensures NoComma(Decimal(n))
  {
    ParseDecimal(n, limit);
    forall i | 0 <= i < |Decimal(n)| ensures Decimal(n)[i] != ',' {
      assert IsDigit(Decimal(n)[i]);
    }
  }

  lemma HashRoundTrip(k: TreeKey)
    ensures ParseHash(HexEncode(ToBytes(k))) == Some(Hash(k))
    ensures NoComma(HexEncode(ToBytes(k)))
  {
    HashHexRoundTrip(ToBytes(k));
    KeyBytesRoundTrip(k);
    var s := HexEncode(ToBytes(k));
    forall i | 0 <= i < |s| ensures s[i] != ',' {
      assert HexValue(s[i]).Some?;
    }
  }

  lemma U32RoundTrip(n: u64)
    ensures ComesBack(U32(n), U32Type) <==> n < U32_LIMIT
    ensures NoComma(Print(U32(n)).value)
  {
    NumberRoundTrip(n % U32_LIMIT, U32_LIMIT);
  }

  lemma FieldRoundTrip(n: u64)
    ensures ComesBack(Field(n), FieldType) <==> n <= FIELD_ORDER
    ensures n <= FIELD_ORDER ==> NoComma(Print(Field(n)).value)
  {
    NumberRoundTrip(n, LIMB);
  }

  /** The text of field elements has no bracket and no comma. */
  lemma {:induction false} FieldsPlain(ns: seq<u64>)
    requires FieldsText(ns).Some?
    ensures |FieldsText(ns).value| >= 2 && FieldsText(ns).value[0] == '0' && NoComma(FieldsText(ns).value)
  {
    if ns != [] {
      FieldsPlain(ns[..|ns| - 1]);
    }
  }

  lemma {:induction false} ScalarRoundTrip(v: Value, t: AbiType)
    requires HasType(v, t) && !t.Composite()
    ensures ComesBack(v, t) <==> ScalarSurvives(v)
    ensures Print(v).Some? && !v.Text? ==> NoComma(Print(v).value)
  {
    hide Decimal, HexEncode, ToBytes, ParseUnsigned, ParseHash;
    match v
    case U32(n) => U32RoundTrip(n);
    case Field(n) => FieldRoundTrip(n);
    case Hash(k) => HashRoundTrip(k);
    case Fields(ns) =>
      if FieldsText(ns).Some? {
        FieldsPlain(ns);
      }
    case _ =>
  }

  lemma EnclosedContent(open: char, parts: seq<string>, close: char)
    ensures parts == [] ==> Enclosed(open, Some(parts), close) == Some([close])
    ensures parts != [] ==>
              var s := Enclosed(open, Some(parts), close).value;
              && Terminated(parts) != ""
              && |s| >= 2 && s[0] == open && s[|s| - 1] == close
              && s[1..|s| - 1] == Terminated(parts)[..|Terminated(parts)| - 1]
  {
    var s := [open] + Terminated(parts);
    if parts != [] {
      assert s[..|s| - 1] == [open] + Terminated(parts)[..|Terminated(parts)| - 1];
    } else {
      assert s[..|s| - 1] + [close] == [close];
    }
  }

  ghost predicate AllTyped(items: seq<Value>, t: AbiType) {
    !t.Composite() && forall i :: 0 <= i < |items| ==> HasType(items[i], t)
  }

  /** The printed parts parse to the items exactly if all numbers are in range. */
  lemma {:induction false} PartsRoundTrip(items: seq<Value>, t: AbiType)
    requires AllTyped(items, t) && Printed(items).Some?
    ensures ParseItems(t, Printed(items).value) == Some(items) <==> forall i :: 0 <= i < |items| ==>
              ScalarSurvives(items[i])
  {
    var parts := Printed(items).value;
    forall i | 0 <= i < |items| ensures Parse(t, parts[i]) == Some(items[i]) <==> ScalarSurvives(items[i]) {
      ScalarRoundTrip(items[i], t);
    }
    if forall i :: 0 <= i < |items| ==> ScalarSurvives(items[i]) {
      assert ParseItems(t, parts).value == items;
    }
    if ParseItems(t, parts) == Some(items) {
      forall i | 0 <= i < |items| ensures ScalarSurvives(items[i]) {
        assert Parse(t, parts[i]) == Some(ParseItems(t, parts).value[i]);
      }
    }
  }

  lemma {:induction false} CommasAreInTexts(items: seq<Value>, t: AbiType, i: nat)
    requires AllTyped(items, t) && Printed(items).Some? && i < |items|
    ensures NoComma(Printed(items).value[i]) <==> (items[i].Text? ==> NoComma(items[i].text))
  {
    ScalarRoundTrip(items[i], t);
  }

  ghost predicate ListComesBack(items: seq<Value>, t: AbiType) {
    var s := Enclosed('[', Printed(items), ']');
    s.Some? && Bracketed(s.value) && ParseItems(t, Split(Content(s.value))) == Some(items)
  }

  lemma {:induction false} PrintedListRoundTrip(items: seq<Value>, t: AbiType)
    requires AllTyped(items, t) && Printed(items).Some? && items != []
    ensures ListComesBack(items, t) <==> AllSurvive(items)
    ensures AllSurvive(items) ==> |Split(Content(Enclosed('[', Printed(items), ']').value))| == |items|
  {
    hide Split, Terminated;
    var parts := Printed(items).value;
    EnclosedContent('[', parts, ']');
    PartsRoundTrip(items, t);
    if i: nat :| i < |parts| && !NoComma(parts[i]) {
      SplitFindsMore(parts);
      CommasAreInTexts(items, t, i);
      assert !ItemSurvives(items[i]);
    } else {
      SplitTerminated(parts);
      forall i | 0 <= i < |items| ensures ItemSurvives(items[i]) <==> ScalarSurvives(items[i]) {
        CommasAreInTexts(items, t, i);
      }
    }
  }

  /** The list survives exactly if it has an item, and every item survives in it. */
  lemma {:induction false} ItemsRoundTrip(items: seq<Value>, t: AbiType)
    requires AllTyped(items, t)
    ensures ListComesBack(items, t) <==> AllSurvive(items)
    ensures AllSurvive(items) ==> |Split(Content(Enclosed('[', Printed(items), ']').value))| == |items|
  {
    if Printed(items).None? {
      var i :| 0 <= i < |items| && Print(items[i]).None?;
      ScalarRoundTrip(items[i], t);
      assert !ItemSurvives(items[i]);
    } else if items == [] {
      EnclosedContent('[', [], ']');
    } else {
      PrintedListRoundTrip(items, t);
    }
  }

  lemma {:induction false} QuotedIsNoNumber(s: string)
    requires s != "" && s[0] == '\"'
    ensures DigitsValue(s).None? && HashFromHex(s).None?
  {
    NoDigits(s, 0);
    if |s| <= 64 {
      var zeros := Zeros(64 - |s|);
      assert (zeros + s)[|zeros|] == '\"';
      NoHex(zeros + s, |zeros|);
    }
  }

  lemma {:induction false} QuotedIsOther(t: AbiType, s: string)
    requires s != "" && s[0] == '\"' && !t.Composite()
    ensures Parse(t, s) == if t.StringType? then Some(Text(s)) else None
  {
    QuotedIsNoNumber(s);
    hide DigitsValue, HashFromHex;
  }

  /** A field of a tuple does not parse to its value: its name stands before it. */
  lemma {:induction false} FieldIsOther(name: string, v: Value, t: AbiType, printed: string)
    requires !t.Composite() && Print(v) == Some(printed)
    ensures Parse(t, FieldText(name, v, printed)) != Some(v)
  {
    var s := FieldText(name, v, printed);
    assert |s| > |printed| && s[0] == '\"';
    QuotedIsOther(t, s);
    assert v.Text? ==> printed == v.text;
  }

  /** The printed fields cut at their commas: too many parts, or the fields themselves. */
  lemma {:induction false} FieldsAreOther(fields: seq<NamedValue>, attrs: seq<Attr>, content: string)
    requires PrintedFields(fields).Some? && |fields| == |attrs| && fields != []
    requires var parts := PrintedFields(fields).value;
             Terminated(parts) != "" && content == Terminated(parts)[..|Terminated(parts)| - 1]
    requires !attrs[0].type_.Composite() && |Split(content)| == |attrs|
    ensures ParseFields(attrs, Split(content)) != Some(fields)
  {
    var parts := PrintedFields(fields).value;
    hide Split, Terminated, Print, FieldText, Parse, NoComma;
    if i: nat :| i < |parts| && !NoComma(parts[i]) {
      SplitFindsMore(parts);
    } else {
      SplitTerminated(parts);
      FieldIsOther(fields[0].name, fields[0].value, attrs[0].type_, Print(fields[0].value).value);
    }
  }

  lemma PrintedTuple(fields: seq<NamedValue>)
    ensures Print(Tuple(fields)) == Enclosed('{', PrintedFields(fields), '}')
    ensures PrintedFields(fields).None? <==> Print(Tuple(fields)).None?
  {
    hide PrintedFields;
  }

  lemma ParsedTuple(attrs: seq<Attr>, s: string, fields: seq<NamedValue>)
    requires Parse(TupleOf(attrs), s) == Some(Tuple(fields))
    ensures Braced(s) && |Split(Content(s))| == |attrs| && ParseFields(attrs, Split(Content(s))) == Some(fields)
  {
    hide ParseFields, Split;
  }

  lemma AttrsPlain(fields: seq<NamedValue>, attrs: seq<Attr>)
    requires HasType(Tuple(fields), TupleOf(attrs))
    ensures |fields| == |attrs| && (attrs != [] ==> !attrs[0].type_.Composite())
  {
  }

  lemma {:induction false} TupleIsLost(fields: seq<NamedValue>, attrs: seq<Attr>)
    requires HasType(Tuple(fields), TupleOf(attrs))
    ensures !ComesBack(Tuple(fields), TupleOf(attrs))
  {
    hide Print, Parse, PrintedFields, ParseFields, Split, Terminated, Enclosed, HasType, AbiType.Composite;
    PrintedTuple(fields);
    AttrsPlain(fields, attrs);
    if PrintedFields(fields).Some? {
      var parts := PrintedFields(fields).value;
      EnclosedContent('{', parts, '}');
      var s := Print(Tuple(fields)).value;
      if Parse(TupleOf(attrs), s) == Some(Tuple(fields)) {
        ParsedTuple(attrs, s, fields);
        FieldsAreOther(fields, attrs, Content(s));
      }
    }
  }

  /** A value comes back from its text exactly if it survives. */
  lemma {:induction false} RoundTrip(v: Value, t: AbiType)
    requires HasType(v, t)
    ensures ComesBack(v, t) <==> Survives(v, t)
  {
    if t.TupleOf? {
      TupleIsLost(v.fields, t.attrs);
    } else if t.Composite() {
      ItemsRoundTrip(v.items, t.item);
    } else {
      ScalarRoundTrip(v, t);
    }
  }

  /** A value of each kind that does not come back: an empty list, a number that is truncated, a
      list of another size than declared, a string with a comma in a list, a list of field elements
      and a tuple. */
  lemma LostValues()
    ensures !ComesBack(Array([], U32Type), ArrayOf(U32Type))
    ensures !ComesBack(U32(0x1_0000_0000), U32Type)
    ensures !ComesBack(FixedArray([Bool(true)], BoolType), FixedArrayOf(BoolType, 2))
    ensures !ComesBack(Array([Text("a,b")], StringType), ArrayOf(StringType))
    ensures !ComesBack(Fields([1]), FieldsType)
    ensures !ComesBack(Tuple([NamedValue("a", Bool(true))]), TupleOf([Attr("a", BoolType)]))
  {
    hide Print, Parse, ComesBack;
    RoundTrip(Fields([1]), FieldsType);
    RoundTrip(Tuple([NamedValue("a", Bool(true))]), TupleOf([Attr("a", BoolType)]));
    RoundTrip(Array([], U32Type), ArrayOf(U32Type));
    RoundTrip(U32(0x1_0000_0000), U32Type);
    RoundTrip(FixedArray([Bool(true)], BoolType), FixedArrayOf(BoolType, 2));
    var text := Text("a,b");
    assert "a,b"[1] == ',' && !NoComma("a,b");
    assert !ItemSurvives([text][0]);
    RoundTrip(Array([text], StringType), ArrayOf(StringType));
  }

  /** Addresses come back as hashes. */
  lemma AddressComesBackAsHash(k: TreeKey)
    ensures Print(Address(k)).Some? && Parse(AddressType, Print(Address(k)).value) == Some(Hash(k))
  {
    HashRoundTrip(k);
  }

  /** Types whose texts come back: without lists of field elements and without tuples. */
  predicate PlainType(t: AbiType) {
    !t.FieldsType? && !t.TupleOf? && (t.ArrayOf? || t.FixedArrayOf? ==> !t.item.FieldsType?)
  }

  lemma {:induction false} ParsedSurvives(t: AbiType, s: string)
    requires Parse(t, s).Some?
    ensures HasType(Parse(t, s).value, t) && (Survives(Parse(t, s).value, t) <==> PlainType(t))
    decreases t
  {
    hide AllSurvive, ParseUnsigned, HashFromHex, ParseNumbers, ParseFields, ParseItems;
    match t
    case ArrayOf(item) => ParsedItems(item, Split(Content(s)));
    case FixedArrayOf(item, _) => ParsedItems(item, Split(Content(s)));
    case TupleOf(attrs) => ParsedFields(attrs, Split(Content(s)));
    case _ => ParsedScalar(t, s);
  }

  lemma ParsedFields(attrs: seq<Attr>, parts: seq<string>)
    requires |attrs| == |parts| && ParseFields(attrs, parts).Some?
    ensures HasType(Tuple(ParseFields(attrs, parts).value), TupleOf(attrs))
  {
    var fields := ParseFields(attrs, parts).value;
    forall i | 0 <= i < |attrs| ensures HasType(fields[i].value, attrs[i].type_) {
      ParsedScalar(attrs[i].type_, parts[i]);
    }
  }

  lemma ParsedScalar(t: AbiType, s: string)
    requires Parse(t, s).Some? && !t.Composite()
    ensures HasType(Parse(t, s).value, t)
    ensures ScalarSurvives(Parse(t, s).value) <==> !t.FieldsType?
    ensures Parse(t, s).value.Text? ==> Parse(t, s).value.text == s
  {
  }

  lemma {:induction false} ParsedItems(item: AbiType, parts: seq<string>)
    requires !item.Composite() && ParseItems(item, parts).Some? && parts != []
    requires forall i :: 0 <= i < |parts| ==> NoComma(parts[i])
    ensures forall i :: 0 <= i < |parts| ==> HasType(ParseItems(item, parts).value[i], item)
    ensures AllSurvive(ParseItems(item, parts).value) <==> !item.FieldsType?
  {
    var items := ParseItems(item, parts).value;
    forall i | 0 <= i < |parts| ensures HasType(items[i], item) && (ItemSurvives(items[i]) <==> !item.FieldsType?) {
      ParsedScalar(item, parts[i]);
    }
    assert ItemSurvives(items[0]) <==> !item.FieldsType?;
  }

  /** Whatever text was accepted, the text printed for its value is accepted with the same value,
      exactly for the types without lists of field elements and tuples. */
  lemma {:induction false} ParsePrintParse(t: AbiType, s: string)
    requires Parse(t, s).Some?
    ensures Print(Parse(t, s).value).Some? && Parse(t, Print(Parse(t, s).value).value) == Parse(t, s) <==> PlainType(t)
  {
    ParsedSurvives(t, s);
    RoundTrip(Parse(t, s).value, t);
  }
}
