/** Variants read from a D-Bus message and appended to another: which payloads are accepted, and that nothing is lost.
    */
module DBusVariants {
  import opened Common
  import ObjectPath

  // ---------- D-Bus types and message contents ----------

  datatype BasicType =
    | Boolean | Int32 | UInt32 | Int64 | UInt64 | Double | Text | Path | Byte | Int16 | UInt16 | UnixFd | Signature

  datatype Type =
    | BasicOf(t: BasicType)
    | ArrayOf(elem: Type)
    | StructOf(fields: seq<Type>)
    | EntryOf(key: BasicType, val: Type)
    | VariantOf

  function Code(t: BasicType): string {
    match t
    case Boolean => "b"
    case Int32 => "i"
    case UInt32 => "u"
    case Int64 => "x"
    case UInt64 => "t"
    case Double => "d"
    case Text => "s"
    case Path => "o"
    case Byte => "y"
    case Int16 => "n"
    case UInt16 => "q"
    case UnixFd => "h"
    case Signature => "g"
  }

  /** Sections "Container types" and "Valid Signatures" of the D-Bus Specification. */
  function Sig(t: Type): string {
    match t
    case BasicOf(b) => Code(b)
    case ArrayOf(elem) => "a" + Sig(elem)
    case StructOf(fields) => "(" + Sigs(fields) + ")"
    case EntryOf(key, val) => "{" + Code(key) + Sig(val) + "}"
    case VariantOf => "v"
  }

  function Sigs(ts: seq<Type>): string {
    if ts == [] then "" else Sigs(ts[..|ts| - 1]) + Sig(ts[|ts| - 1])
  }

  /** A scalar as it is in a message; doubles are bit patterns. */
  datatype Scalar = Number(n: int) | Chars(s: string)

  datatype Node =
    | Basic(t: BasicType, scalar: Scalar)
    | Array(elem: Type, elems: seq<Node>)
    | Struct(fields: seq<Node>)
    | Entry(key: Node, val: Node)
    | Variant(inner: Node)

  function TypeOf(n: Node): Type {
    match n
    case Basic(t, _) => BasicOf(t)
    case Array(elem, _) => ArrayOf(elem)
    case Struct(fields) => StructOf(TypesOf(fields))
    case Entry(key, val) => EntryOf(if key.Basic? then key.t else Byte, TypeOf(val))
    case Variant(_) => VariantOf
  }

  function TypesOf(ns: seq<Node>): (ts: seq<Type>)
    ensures |ts| == |ns|
  {
    if ns == [] then [] else TypesOf(ns[..|ns| - 1]) + [TypeOf(ns[|ns| - 1])]
  }

  predicate PathText(s: string) {
    s == "/" || (s != "" && ObjectPath.Groups(s))
  }

  lemma PathTextExactly(s: string)
    ensures PathText(s) <==> ObjectPath.IsPath(s)
  {
    ObjectPath.GroupsArePaths(s);
  }

  /** What the message library guarantees of a scalar. */
  predicate IsWire(t: BasicType, x: Scalar) {
    match t
    case Boolean => x == Number(0) || x == Number(1)
    case Text => x.Chars? && NUL !in x.s
    case Signature => x.Chars? && NUL !in x.s
    case Path => x.Chars? && NUL !in x.s && PathText(x.s)
    case _ => x.Number?
  }

  /** What the message library guarantees of contents: scalars in range and arrays of one type. */
  predicate IsMessage(n: Node) {
    match n
    case Basic(t, x) => IsWire(t, x)
    case Array(elem, elems) => AreMessages(elems) && forall i | 0 <= i < |elems| :: TypeOf(elems[i]) == elem
    case Struct(fields) => AreMessages(fields)
    case Entry(key, val) => key.Basic? && IsMessage(key) && IsMessage(val)
    case Variant(inner) => IsMessage(inner)
  }

  predicate AreMessages(ns: seq<Node>) {
    forall i | 0 <= i < |ns| :: IsMessage(ns[i])
  }

  // ---------- the values of the program ----------

  datatype Value = Flag(b: bool) | Num(n: int) | Str(s: string)

  datatype Payload = One(t: BasicType, v: Value) | Many(t: BasicType, vs: seq<Value>) | Fields(fields: seq<DBusVariant>)

  datatype DBusVariant = DBusVariant(signature: string, payload: Payload)

  predicate IsSupportedType(t: BasicType) {
    t in {Boolean, Int32, UInt32, Int64, UInt64, Double, Text, Path}
  }

  /** The payloads the wrapper knows: the eight basic types, arrays of those, and structs of both. */
  predicate Supported(n: Node) {
    match n
    case Basic(t, _) => IsSupportedType(t)
    case Array(elem, _) => elem.BasicOf? && IsSupportedType(elem.t)
    case Struct(fields) => forall i | 0 <= i < |fields| :: Supported(fields[i])
    case _ => false
  }

  /** The get traits of one basic value. */
  function FromWire(t: BasicType, x: Scalar): Result<Value> {
    if t == Boolean then Ok(Flag(x != Number(0)))
    else if t == Path then
      if x.Chars? && PathText(x.s) then Ok(Str(x.s)) else Error("Invalid D-Bus object path")
    else if x.Number? then Ok(Num(x.n)) else Ok(Str(x.s))
  }

  /** The set traits of one basic value; text is handed over as a C string. */
  function ToWire(t: BasicType, v: Value): Result<Scalar> {
    match v
    case Flag(b) => Ok(Number(if b then 1 else 0))
    case Num(n) => Ok(Number(n))
    case Str(s) => if t == Path && !PathText(s) then Error("Invalid D-Bus object path") else Ok(Chars(UpToNul(s)))
  }

  // ---------- decoding and encoding ----------

  function FromWireAll(t: BasicType, elems: seq<Node>): Result<seq<Value>> {
    if elems == [] then Ok([])
    else
      var init := FromWireAll(t, elems[..|elems| - 1]);
      if init.Error? then init
      else if !elems[|elems| - 1].Basic? then Error("not basic")
      else
        var last := FromWire(t, elems[|elems| - 1].scalar);
        if last.Error? then Error(last.message) else Ok(init.value + [last.value])
  }

  function Decode(n: Node): Result<DBusVariant> {
    match n
    case Basic(t, x) =>
      if !IsSupportedType(t) then Error("Unsupported variant payload")
      else
        var v := FromWire(t, x);
        if v.Error? then Error(v.message) else Ok(DBusVariant(Code(t), One(t, v.value)))
    case Array(elem, elems) =>
      if !(elem.BasicOf? && IsSupportedType(elem.t))
        then Error("Unsupported variant array payload: " + Sig(ArrayOf(elem)))
      else
        var vs := FromWireAll(elem.t, elems);
        if vs.Error? then Error(vs.message) else Ok(DBusVariant(Sig(ArrayOf(elem)), Many(elem.t, vs.value)))
    case Struct(fields) =>
      var fs := DecodeAll(fields);
      if fs.Error? then Error(fs.message) else Ok(DBusVariant("(" + Signatures(fs.value) + ")", Fields(fs.value)))
    case Entry(_, _) => Error("Unsupported variant payload")
    case Variant(_) => Error("Unsupported variant payload")
  }

  function DecodeAll(ns: seq<Node>): Result<seq<DBusVariant>> {
    if ns == [] then Ok([])
    else
      var init := DecodeAll(ns[..|ns| - 1]);
      if init.Error? then init
      else
        var last := Decode(ns[|ns| - 1]);
        if last.Error? then Error(last.message) else Ok(init.value + [last.value])
  }

  function Signatures(fs: seq<DBusVariant>): string {
    if fs == [] then "" else Signatures(fs[..|fs| - 1]) + fs[|fs| - 1].signature
  }

  function ToWireAll(t: BasicType, vs: seq<Value>): Result<seq<Node>> {
    if vs == [] then Ok([])
    else
      var init := ToWireAll(t, vs[..|vs| - 1]);
      if init.Error? then init
      else
        var last := ToWire(t, vs[|vs| - 1]);
        if last.Error? then Error(last.message) else Ok(init.value + [Basic(t, last.value)])
  }

  /** What appending a variant's payload adds to a message. */
  function Encode(v: DBusVariant): Result<Node> {
    match v.payload
    case One(t, x) => (var w := ToWire(t, x); if w.Error? then Error(w.message) else Ok(Basic(t, w.value)))
    case Many(t, xs) => (var ns := ToWireAll(t, xs); if ns.Error? then Error(ns.message)
                         else Ok(Array(BasicOf(t), ns.value)))
    case Fields(fs) => (var ns := EncodeAll(fs); if ns.Error? then Error(ns.message) else Ok(Struct(ns.value)))
  }

  function EncodeAll(fs: seq<DBusVariant>): Result<seq<Node>> {
    if fs == [] then Ok([])
    else
      var init := EncodeAll(fs[..|fs| - 1]);
      if init.Error? then init
      else
        var last := Encode(fs[|fs| - 1]);
        if last.Error? then Error(last.message) else Ok(init.value + [last.value])
  }

  // ---------- lossless ----------

  lemma ScalarRoundTrip(t: BasicType, x: Scalar)
    requires IsWire(t, x)
    ensures FromWire(t, x).Ok? && ToWire(t, FromWire(t, x).value) == Ok(x)
  {
  }

  lemma {:induction false} VectorRoundTrip(t: BasicType, elems: seq<Node>)
    requires AreMessages(elems) && forall i | 0 <= i < |elems| :: TypeOf(elems[i]) == BasicOf(t)
    ensures FromWireAll(t, elems).Ok? && ToWireAll(t, FromWireAll(t, elems).value) == Ok(elems)
    ensures |FromWireAll(t, elems).value| == |elems|
    decreases |elems|
  {
    hide FromWire, ToWire, IsMessage, TypeOf, ToWireAll;
    if elems == [] {
      NoWire(t);
    } else {
      var init, last := elems[..|elems| - 1], elems[|elems| - 1];
      VectorRoundTrip(t, init);
      BasicRoundTrip(t, last);
      ToWireAllNext(t, FromWireAll(t, init).value, FromWire(t, last.scalar).value);
      assert elems == init + [last];
    }
  }

  lemma BasicRoundTrip(t: BasicType, n: Node)
    requires IsMessage(n) && TypeOf(n) == BasicOf(t)
    ensures n.Basic? && n == Basic(t, n.scalar) && FromWire(t, n.scalar).Ok?
    ensures ToWire(t, FromWire(t, n.scalar).value) == Ok(n.scalar)
  {
    ScalarRoundTrip(t, n.scalar);
  }

  lemma NoWire(t: BasicType)
    ensures ToWireAll(t, []) == Ok([])
  {
  }

  lemma ToWireAllNext(t: BasicType, vs: seq<Value>, v: Value)
    requires ToWireAll(t, vs).Ok? && ToWire(t, v).Ok?
    ensures ToWireAll(t, vs + [v]) == Ok(ToWireAll(t, vs).value + [Basic(t, ToWire(t, v).value)])
  {
    hide ToWire;
    assert (vs + [v])[..|vs|] == vs;
  }

  /** Reading a variant accepts exactly the supported payloads; appending what was read writes the same contents, and
      the signature computed while reading is theirs. */
  lemma {:induction false} LosslessExactly(n: Node)
    requires IsMessage(n)
    ensures Decode(n).Ok? <==> Supported(n)
    ensures Supported(n) ==> Encode(Decode(n).value) == Ok(n) && Decode(n).value.signature == Sig(TypeOf(n))
    decreases n
  {
    match n
    case Basic(t, x) => ScalarRoundTrip(t, x);
    case Array(elem, elems) => if elem.BasicOf? { VectorRoundTrip(elem.t, elems); }
    case Struct(fields) => FieldsLossless(n, fields);
    case _ =>
  }

  lemma {:induction false} FieldsLossless(n: Node, fields: seq<Node>)
    requires AreMessages(fields) && forall i | 0 <= i < |fields| :: fields[i] < n
    ensures DecodeAll(fields).Ok? <==> forall i | 0 <= i < |fields| :: Supported(fields[i])
    ensures DecodeAll(fields).Ok? ==>
      |DecodeAll(fields).value| == |fields| && EncodeAll(DecodeAll(fields).value) == Ok(fields) &&
      Signatures(DecodeAll(fields).value) == Sigs(TypesOf(fields))
    decreases n, |fields|
  {
    hide Decode, Encode, Supported, IsMessage, TypeOf, Sig, Sigs, TypesOf, Signatures, EncodeAll;
    if fields == [] {
      NoFields();
    } else {
      var init, last := fields[..|fields| - 1], fields[|fields| - 1];
      FieldsLossless(n, init);
      LosslessExactly(last);
      assert fields == init + [last];
      assert forall i | 0 <= i < |init| :: init[i] == fields[i];
      SigsNext(init, last);
      if DecodeAll(init).Ok? && Decode(last).Ok? {
        EncodeAllNext(DecodeAll(init).value, Decode(last).value);
      }
    }
  }

  lemma NoFields()
    ensures EncodeAll([]) == Ok([]) && Signatures([]) == Sigs(TypesOf([]))
  {
  }

  lemma SigsNext(ns: seq<Node>, n: Node)
    ensures Sigs(TypesOf(ns + [n])) == Sigs(TypesOf(ns)) + Sig(TypeOf(n))
  {
    hide TypeOf, Sig;
    assert (ns + [n])[..|ns|] == ns;
    assert (TypesOf(ns) + [TypeOf(n)])[..|ns|] == TypesOf(ns);
  }

  lemma EncodeAllNext(fs: seq<DBusVariant>, f: DBusVariant)
    requires EncodeAll(fs).Ok? && Encode(f).Ok?
    ensures EncodeAll(fs + [f]) == Ok(EncodeAll(fs).value + [Encode(f).value])
    ensures Signatures(fs + [f]) == Signatures(fs) + f.signature
  {
    hide Encode;
    assert (fs + [f])[..|fs|] == fs;
  }

  // ---------- the iterators ----------

  /** A reading position among the values of one container. */
  class MessageIter {
    const nodes: seq<Node>
    var pos: nat

    constructor (nodes: seq<Node>)
      ensures this.nodes == nodes && pos == 0
    {
      this.nodes, pos := nodes, 0;
    }
  }

  /** The values appended to one container so far. */
  class AppendIter {
    var nodes: seq<Node>

    constructor ()
      ensures nodes == []
    {
      nodes := [];
    }
  }

  /** The basic type whose arrays have this signature, if arrays of it are known. */
  function VectorType(signature: string): Result<BasicType> {
    if signature == "ab" then Ok(Boolean)
    else if signature == "ai" then Ok(Int32)
    else if signature == "au" then Ok(UInt32)
    else if signature == "ax" then Ok(Int64)
    else if signature == "at" then Ok(UInt64)
    else if signature == "ad" then Ok(Double)
    else if signature == "as" then Ok(Text)
    else if signature == "ao" then Ok(Path)
    else Error("Unsupported variant array payload: " + signature)
  }

  /** The signature of an array tells its element type. */
  lemma VectorTypeExactly(elem: Type)
    ensures VectorType(Sig(ArrayOf(elem))) ==
            if elem.BasicOf? && IsSupportedType(elem.t) then Ok(elem.t)
            else Error("Unsupported variant array payload: " + Sig(ArrayOf(elem)))
  {
    var s := Sig(ArrayOf(elem));
    assert s[0] == 'a' && s[1..] == Sig(elem);
    if !elem.BasicOf? {
      assert Sig(elem)[0] in {'a', '(', '{', 'v'};
      assert forall c <- {"b", "i", "u", "x", "t", "d", "s", "o"} :: s == "a" + c ==> Sig(elem)[0] == c[0];
    } else {
      assert s[1] == Code(elem.t)[0];
    }
  }

  lemma BasicElement(n: Node, t: BasicType)
    requires IsMessage(n) && TypeOf(n) == BasicOf(t)
    ensures n.Basic? && n.t == t && FromWire(t, n.scalar).Ok?
  {
    ScalarRoundTrip(t, n.scalar);
  }

  lemma ElementsAreMessages(n: Node)
    requires IsMessage(n) && n.Array?
    ensures AreMessages(n.elems) && forall i | 0 <= i < |n.elems| :: TypeOf(n.elems[i]) == n.elem
  {
  }

  lemma NothingRead(t: BasicType)
    ensures FromWireAll(t, []) == Ok([])
  {
  }

  lemma ReadNext(t: BasicType, elems: seq<Node>, i: nat)
    requires i < |elems| && elems[i].Basic? && FromWireAll(t, elems[..i]).Ok? && FromWire(t, elems[i].scalar).Ok?
    ensures FromWireAll(t, elems[..i + 1]) ==
        Ok(FromWireAll(t, elems[..i]).value + [FromWire(t, elems[i].scalar).value])
  {
    hide FromWire;
    assert elems[..i + 1][..i] == elems[..i];
  }

  /** The get traits of a vector of basic values. */
  method ReadVector(it: MessageIter, t: BasicType, elems: seq<Node>) returns (r: Result<seq<Value>>)
    requires it.pos < |it.nodes| && it.nodes[it.pos] == Array(BasicOf(t), elems) && IsMessage(it.nodes[it.pos])
    modifies it`pos
    ensures r == FromWireAll(t, elems) && (r.Ok? ==> it.pos == old(it.pos) + 1) && it.pos <= |it.nodes|
  {
    hide FromWire, FromWireAll, IsMessage, TypeOf;
    ElementsAreMessages(it.nodes[it.pos]);
    assert FromWireAll(t, []) == Ok([]) by { NothingRead(t); }
    var sub := new MessageIter(elems);
    var out: seq<Value> := [];
    while sub.pos < |sub.nodes|
      invariant sub.pos <= |elems| && FromWireAll(t, elems[..sub.pos]) == Ok(out)
      invariant it.pos == old(it.pos)
      decreases |elems| - sub.pos
    {
      BasicElement(elems[sub.pos], t);
      ReadNext(t, elems, sub.pos);
      var v := FromWire(t, elems[sub.pos].scalar);
      out := out + [v.value];
      sub.pos := sub.pos + 1;
    }
    assert elems[..|elems|] == elems;
    it.pos := it.pos + 1;
    r := Ok(out);
  }

  method ReadArray(it: MessageIter) returns (r: Result<DBusVariant>)
    requires it.pos < |it.nodes| && it.nodes[it.pos].Array? && IsMessage(it.nodes[it.pos])
    modifies it`pos
    ensures r == Decode(it.nodes[old(it.pos)]) && (r.Ok? ==> it.pos == old(it.pos) + 1) && it.pos <= |it.nodes|
  {
    var node := it.nodes[it.pos];
    var signature := Sig(TypeOf(node));
    VectorTypeExactly(node.elem);
    var t := VectorType(signature);
    if t.Error? { return Error(t.message); }
    var vs := ReadVector(it, t.value, node.elems);
    if vs.Error? { return Error(vs.message); }
    r := Ok(DBusVariant(signature, Many(t.value, vs.value)));
  }

  method ReadStruct(it: MessageIter) returns (r: Result<DBusVariant>)
    requires it.pos < |it.nodes| && it.nodes[it.pos].Struct? && IsMessage(it.nodes[it.pos])
    modifies it`pos
    ensures r == Decode(it.nodes[old(it.pos)]) && (r.Ok? ==> it.pos == old(it.pos) + 1) && it.pos <= |it.nodes|
    decreases it.nodes[it.pos], 0
  {
    hide DecodeAll, Signatures, IsMessage;
    var inner := it.nodes[it.pos].fields;
    FieldsAreMessages(it.nodes[it.pos]);
    NothingDecoded();
    var sub := new MessageIter(inner);
    var fields: seq<DBusVariant> := [];
    while sub.pos < |sub.nodes|
      invariant sub.pos <= |inner| && DecodeAll(inner[..sub.pos]) == Ok(fields)
      invariant it.pos == old(it.pos)
      decreases |inner| - sub.pos
    {
      ghost var at := sub.pos;
      DecodedNext(inner, at);
      var v := ReadValue(sub);
      if v.Error? {
        FirstErrorStays(inner, at + 1);
        return Error(v.message);
      }
      fields := fields + [v.value];
    }
    assert inner[..|inner|] == inner;
    it.pos := it.pos + 1;
    var signature := "(";
    var i := 0;
    while i < |fields|
      invariant 0 <= i <= |fields| && signature == "(" + Signatures(fields[..i])
      invariant it.pos == old(it.pos) + 1
    {
      SignaturesNext(fields, i);
      Associative("(", Signatures(fields[..i]), fields[i].signature);
      signature := signature + fields[i].signature;
      i := i + 1;
    }
    assert fields[..|fields|] == fields;
    signature := signature + ")";
    assert DecodeAll(inner) == Ok(fields) && signature == "(" + Signatures(fields) + ")";
    r := Ok(DBusVariant(signature, Fields(fields)));
  }

  lemma FieldsAreMessages(n: Node)
    requires IsMessage(n) && n.Struct?
    ensures AreMessages(n.fields)
  {
  }

  lemma NothingDecoded()
    ensures DecodeAll([]) == Ok([]) && Signatures([]) == ""
  {
  }

  lemma DecodedNext(ns: seq<Node>, i: nat)
    requires i < |ns| && DecodeAll(ns[..i]).Ok?
    ensures DecodeAll(ns[..i + 1]) == if Decode(ns[i]).Error? then Error(Decode(ns[i]).message)
                                      else Ok(DecodeAll(ns[..i]).value + [Decode(ns[i]).value])
  {
    hide Decode;
    assert ns[..i + 1][..i] == ns[..i];
  }

  lemma SignaturesNext(fs: seq<DBusVariant>, i: nat)
    requires i < |fs|
    ensures Signatures(fs[..i + 1]) == Signatures(fs[..i]) + fs[i].signature
  {
    assert fs[..i + 1][..i] == fs[..i];
  }

  lemma {:induction false} FirstErrorStays(ns: seq<Node>, k: nat)
    requires k <= |ns| && DecodeAll(ns[..k]).Error?
    ensures DecodeAll(ns) == DecodeAll(ns[..k])
    decreases |ns|
  {
    if k == |ns| {
      assert ns[..k] == ns;
    } else {
      assert ns[..|ns| - 1][..k] == ns[..k];
      FirstErrorStays(ns[..|ns| - 1], k);
    }
  }

  /** Reads one value and moves past it; there may be none. */
  method ReadValue(it: MessageIter) returns (r: Result<DBusVariant>)
    requires it.pos <= |it.nodes| && AreMessages(it.nodes)
    modifies it`pos
    ensures r == if old(it.pos) < |it.nodes| then Decode(it.nodes[old(it.pos)])
                 else Error("Unsupported variant payload")
    ensures (r.Ok? ==> it.pos == old(it.pos) + 1) && it.pos <= |it.nodes|
    decreases if it.pos < |it.nodes| then it.nodes[it.pos] else Basic(Boolean, Number(0)), 1
  {
    if it.pos == |it.nodes| { return Error("Unsupported variant payload"); }
    var node := it.nodes[it.pos];
    match node
    case Struct(_) => r := ReadStruct(it);
    case Array(_, _) => r := ReadArray(it);
    case Basic(t, scalar) =>
      if !IsSupportedType(t) { return Error("Unsupported variant payload"); }
      var v := FromWire(t, scalar);
      it.pos := it.pos + 1;
      if v.Error? { return Error(v.message); }
      r := Ok(DBusVariant(Code(t), One(t, v.value)));
    case Entry(_, _) => r := Error("Unsupported variant payload");
    case Variant(_) => r := Error("Unsupported variant payload");
  }

  /** Appends a variant's payload; a struct goes into a container that is closed only when it is complete. */
  method Append(out: AppendIter, v: DBusVariant) returns (r: Result<()>)
    modifies out
    ensures r.Ok? <==> Encode(v).Ok?
    ensures out.nodes == if r.Ok? then old(out.nodes) + [Encode(v).value] else old(out.nodes)
    decreases v
  {
    match v.payload
    case One(t, x) =>
      var w := ToWire(t, x);
      if w.Error? { return Error(w.message); }
      out.nodes := out.nodes + [Basic(t, w.value)];
      r := Ok(());
    case Many(t, xs) =>
      var ns := ToWireAll(t, xs);
      if ns.Error? { return Error(ns.message); }
      out.nodes := out.nodes + [Array(BasicOf(t), ns.value)];
      r := Ok(());
    case Fields(fields) =>
      var sub := new AppendIter();
      var i := 0;
      while i < |fields|
        invariant 0 <= i <= |fields| && EncodeAll(fields[..i]) == Ok(sub.nodes)
        invariant out.nodes == old(out.nodes)
      {
        assert fields[..i + 1][..i] == fields[..i];
        assert fields[i] < v;
        var done := Append(sub, fields[i]);
        if done.Error? {
          EncodeErrorStays(fields, i + 1);
          return Error(done.message);
        }
        i := i + 1;
      }
      assert fields[..|fields|] == fields;
      out.nodes := out.nodes + [Struct(sub.nodes)];
      r := Ok(());
  }

  lemma {:induction false} EncodeErrorStays(fs: seq<DBusVariant>, k: nat)
    requires k <= |fs| && EncodeAll(fs[..k]).Error?
    ensures EncodeAll(fs).Error?
    decreases |fs|
  {
    if k == |fs| {
      assert fs[..k] == fs;
    } else {
      assert fs[..|fs| - 1][..k] == fs[..k];
      EncodeErrorStays(fs[..|fs| - 1], k);
    }
  }

  /** Reading a variant from one message and appending it to another copies its payload exactly, when it is supported,
      and otherwise fails before anything is appended. */
  method CopyVariant(payload: Node) returns (copied: bool, out: AppendIter)
    requires IsMessage(payload)
    ensures copied <==> Supported(payload)
    ensures out.nodes == if copied then [payload] else []
  {
    LosslessExactly(payload);
    var it := new MessageIter([payload]);
    out := new AppendIter();
    var v := ReadValue(it);
    if v.Error? { return false, out; }
    var done := Append(out, v.value);
    copied := done.Ok?;
  }

  // ---------- tuples ----------

  /** The type a variant's payload is stored as. */
  function StoredType(v: DBusVariant): Type {
    match v.payload
    case One(t, _) => BasicOf(t)
    case Many(t, _) => ArrayOf(BasicOf(t))
    case Fields(fs) => StructOf(StoredTypes(fs))
  }

  function StoredTypes(fs: seq<DBusVariant>): (ts: seq<Type>)
    ensures |ts| == |fs|
  {
    if fs == [] then [] else StoredTypes(fs[..|fs| - 1]) + [StoredType(fs[|fs| - 1])]
  }

  datatype Tree = Leaf(v: Value) | Row(vs: seq<Value>) | Tuple(fields: seq<Tree>)

  /** `get<T>`: a struct becomes a tuple field by field, anything else must be stored as exactly `T`. */
  function Get(v: DBusVariant, t: Type): Result<Tree>
    decreases v, 1
  {
    if t.StructOf? then
      if !v.payload.Fields? then Error("DBusVariant type mismatch")
      else if |v.payload.fields| != |t.fields| then Error("DBusVariant struct arity mismatch")
      else
        var fields := GetAll(v, v.payload.fields, t.fields);
        if fields.Error? then Error(fields.message) else Ok(Tuple(fields.value))
    else
      match v.payload
      case One(b, x) => if t == BasicOf(b) then Ok(Leaf(x)) else Error("DBusVariant type mismatch")
      case Many(b, xs) => if t == ArrayOf(BasicOf(b)) then Ok(Row(xs)) else Error("DBusVariant type mismatch")
      case Fields(_) => Error("DBusVariant type mismatch")
  }

  function GetAll(ghost whole: DBusVariant, fs: seq<DBusVariant>, ts: seq<Type>): Result<seq<Tree>>
    requires |fs| == |ts| && forall i | 0 <= i < |fs| :: fs[i] < whole
    decreases whole, 0, |fs|
  {
    if fs == [] then Ok([])
    else
      var init := GetAll(whole, fs[..|fs| - 1], ts[..|ts| - 1]);
      if init.Error? then init
      else
        var last := Get(fs[|fs| - 1], ts[|ts| - 1]);
        if last.Error? then Error(last.message) else Ok(init.value + [last.value])
  }

  /** `get<T>` succeeds exactly for the type the payload has, nested structs and their arities included. */
  lemma {:induction false} GetExactly(v: DBusVariant, t: Type)
    ensures Get(v, t).Ok? <==> t == StoredType(v)
    decreases v, 1
  {
    if t.StructOf? && v.payload.Fields? && |v.payload.fields| == |t.fields| {
      GetAllExactly(v, v.payload.fields, t.fields);
    }
  }

  lemma {:induction false} GetAllExactly(whole: DBusVariant, fs: seq<DBusVariant>, ts: seq<Type>)
    requires |fs| == |ts| && forall i | 0 <= i < |fs| :: fs[i] < whole
    ensures GetAll(whole, fs, ts).Ok? <==> ts == StoredTypes(fs)
    decreases whole, 0, |fs|
  {
    if fs != [] {
      GetAllExactly(whole, fs[..|fs| - 1], ts[..|ts| - 1]);
      GetExactly(fs[|fs| - 1], ts[|ts| - 1]);
      assert ts == ts[..|ts| - 1] + [ts[|ts| - 1]];
      assert StoredTypes(fs)[..|fs| - 1] == StoredTypes(fs[..|fs| - 1]);
    }
  }

  // ---------- the values got ----------

  /** The result is the payload: the stored value, the stored elements, or a tuple of as many parts, each of them the
      value of the field at its place. */
  ghost predicate Shows(r: Tree, v: DBusVariant)
    decreases v
  {
    match v.payload
    case One(_, x) => r == Leaf(x)
    case Many(_, xs) => r == Row(xs)
    case Fields(fs) => r.Tuple? && |r.fields| == |fs| && forall i | 0 <= i < |fs| :: Shows(r.fields[i], fs[i])
  }

  /** Whatever `get<T>` returns is the payload, at every depth. */
  lemma {:induction false} GetShows(v: DBusVariant, t: Type)
    requires Get(v, t).Ok?
    ensures Shows(Get(v, t).value, v)
    decreases v, 1
  {
    if t.StructOf? {
      GetAllShows(v, v.payload.fields, t.fields);
    }
  }

  lemma {:induction false} GetAllShows(whole: DBusVariant, fs: seq<DBusVariant>, ts: seq<Type>)
    requires |fs| == |ts| && forall i | 0 <= i < |fs| :: fs[i] < whole
    requires GetAll(whole, fs, ts).Ok?
    ensures var r := GetAll(whole, fs, ts).value; |r| == |fs| && forall i | 0 <= i < |fs| :: Shows(r[i], fs[i])
    decreases whole, 0, |fs|
  {
    hide Get, Shows;
    if fs != [] {
      GetAllShows(whole, fs[..|fs| - 1], ts[..|ts| - 1]);
      GetShows(fs[|fs| - 1], ts[|ts| - 1]);
    }
  }

  /** What a basic value of a message is to the program: one is true and zero false, numbers and texts stay. */
  predicate Reads(t: BasicType, x: Scalar, v: Value) {
    match v
    case Flag(b) => t == Boolean && x == Number(if b then 1 else 0)
    case Num(n) => t != Boolean && x == Number(n)
    case Str(s) => x == Chars(s)
  }

  /** The result is the message's value, part by part. */
  ghost predicate Mirrors(r: Tree, n: Node)
    decreases n
  {
    match n
    case Basic(t, x) => r.Leaf? && Reads(t, x, r.v)
    case Array(_, elems) => r.Row? && |r.vs| == |elems| &&
                            forall i | 0 <= i < |elems| :: ElementReads(elems[i], r.vs[i])
    case Struct(fields) => r.Tuple? && |r.fields| == |fields| &&
                           forall i | 0 <= i < |fields| :: Mirrors(r.fields[i], fields[i])
    case _ => false
  }

  predicate ElementReads(n: Node, v: Value) {
    n.Basic? && Reads(n.t, n.scalar, v)
  }

  lemma WireReads(t: BasicType, x: Scalar)
    requires IsWire(t, x)
    ensures FromWire(t, x).Ok? && Reads(t, x, FromWire(t, x).value)
  {
  }

  lemma {:induction false} ElementsRead(t: BasicType, elems: seq<Node>)
    requires AreMessages(elems) && forall i | 0 <= i < |elems| :: TypeOf(elems[i]) == BasicOf(t)
    ensures FromWireAll(t, elems).Ok?
    ensures var vs := FromWireAll(t, elems).value;
            |vs| == |elems| && forall i | 0 <= i < |elems| :: ElementReads(elems[i], vs[i])
    decreases |elems|
  {
    hide FromWire, Reads, IsMessage, TypeOf;
    if elems != [] {
      ElementsRead(t, elems[..|elems| - 1]);
      BasicElementReads(t, elems[|elems| - 1]);
    }
  }

  lemma BasicElementReads(t: BasicType, n: Node)
    requires IsMessage(n) && TypeOf(n) == BasicOf(t)
    ensures n.Basic? && FromWire(t, n.scalar).Ok? && ElementReads(n, FromWire(t, n.scalar).value)
  {
    WireReads(t, n.scalar);
  }

  /** A supported value read from a message and got as a tree is that value, part by part. */
  lemma {:induction false} DecodedMirrors(n: Node, r: Tree)
    requires IsMessage(n) && Supported(n) && Decode(n).Ok? && Shows(r, Decode(n).value)
    ensures Mirrors(r, n)
    decreases n
  {
    match n
    case Basic(t, x) => WireReads(t, x);
    case Array(elem, elems) => ElementsRead(elem.t, elems);
    case Struct(fields) =>
      DecodedAt(fields);
      var fs := DecodeAll(fields).value;
      forall i | 0 <= i < |fields| ensures Mirrors(r.fields[i], fields[i]) {
        assert Decode(fields[i]) == Ok(fs[i]);
        DecodedMirrors(fields[i], r.fields[i]);
      }
  }

  lemma {:induction false} DecodedAt(ns: seq<Node>)
    requires DecodeAll(ns).Ok?
    ensures var fs := DecodeAll(ns).value; |fs| == |ns| && forall i | 0 <= i < |ns| :: Decode(ns[i]) == Ok(fs[i])
    decreases |ns|
  {
    hide Decode;
    if ns != [] { DecodedAt(ns[..|ns| - 1]); }
  }

  lemma {:induction false} DecodedType(n: Node)
    requires IsMessage(n) && Supported(n) && Decode(n).Ok?
    ensures StoredType(Decode(n).value) == TypeOf(n)
    decreases n
  {
    if n.Struct? {
      DecodedAt(n.fields);
      DecodedTypes(n, n.fields, DecodeAll(n.fields).value);
    }
  }

  lemma {:induction false} DecodedTypes(n: Node, ns: seq<Node>, fs: seq<DBusVariant>)
    requires |fs| == |ns|
    requires forall i | 0 <= i < |ns| :: ns[i] < n && IsMessage(ns[i]) && Supported(ns[i]) && Decode(ns[i]) == Ok(fs[i])
    ensures StoredTypes(fs) == TypesOf(ns)
    decreases n, |ns|
  {
    hide Decode, IsMessage, Supported, StoredType, TypeOf;
    if ns != [] {
      DecodedTypes(n, ns[..|ns| - 1], fs[..|fs| - 1]);
      DecodedType(ns[|ns| - 1]);
    }
  }

  /** Reading a supported value and getting it at its own type returns it: every text, number and truth value at its
      place in every array and every nested struct. At any other type the get fails. */
  lemma GetReturnsMessage(n: Node, t: Type)
    requires IsMessage(n) && Supported(n)
    ensures Decode(n).Ok?
    ensures Get(Decode(n).value, t).Ok? <==> t == TypeOf(n)
    ensures t == TypeOf(n) ==> Mirrors(Get(Decode(n).value, t).value, n)
  {
    LosslessExactly(n);
    DecodedType(n);
    GetExactly(Decode(n).value, t);
    if t == TypeOf(n) {
      GetShows(Decode(n).value, t);
      DecodedMirrors(n, Get(Decode(n).value, t).value);
    }
  }
}
