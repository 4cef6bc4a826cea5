/** The in-memory ONNX rewriter: a byte-level protobuf walk that replaces named symbolic dims of the
    graph inputs and outputs. The six nested closures of the source are a path, the list of field
    numbers claimed at each level; the message below the last level is a Dimension. */
module OnnxDims {
  import opened Wrappers
  import opened Varint

  type Path = seq<set<nat>>
  type Dims = seq<(seq<byte>, u64)>

  // Claimed field numbers, from onnx.proto.
  const SHAPE_PATH: Path := [{1}]                       // TensorShapeProto.dim
  const TENSOR_PATH: Path := [{2}] + SHAPE_PATH         // TypeProto.Tensor.shape
  const TYPE_PATH: Path := [{1}] + TENSOR_PATH          // TypeProto.tensor_type
  const VALUE_INFO_PATH: Path := [{2}] + TYPE_PATH      // ValueInfoProto.type
  const GRAPH_PATH: Path := [{11, 12}] + VALUE_INFO_PATH  // GraphProto.input, .output
  const MODEL_PATH: Path := [{7}] + GRAPH_PATH          // ModelProto.graph

  /** One field as it stands in the buffer; `payload` is empty unless it is length-delimited. */
  datatype Field = Field(raw: seq<byte>, key: u64, payload: seq<byte>)

  /** What a message means to the rewriter: bytes it passes over, a Dimension's `dim_param`, or a
      claimed submessage. */
  datatype Node =
    | Copied(raw: seq<byte>)
    | DimParam(raw: seq<byte>, name: seq<byte>)
    | Nested(key: u64, children: seq<Node>)

  // ---------------------------------------------------------------------------------------------
  // Parsing

  /** Start and end of the payload whose length prefix stands at `buf[at]`. */
  function LenSpan(buf: seq<byte>, at: nat, field: u64): (r: Result<(nat, nat), WireError>)
    requires at <= |buf|
    ensures r.Ok? ==> at < r.value.0 <= r.value.1 <= |buf|
  {
    var (len, n) :- Decode(buf[at..]);
    if at + n + len <= |buf| then Ok((at + n, at + n + len)) else Err(LengthOverrun(field))
  }

  function FixedEnd(buf: seq<byte>, at: nat, width: nat, field: u64): (r: Result<nat, WireError>)
    ensures r.Ok? ==> r.value == at + width <= |buf|
  {
    if at + width <= |buf| then Ok(at + width) else Err(FixedOverrun(field))
  }

  /** End of the field whose tag `key` ends just before `buf[at]`. */
  function BodyEnd(buf: seq<byte>, at: nat, key: u64): (r: Result<nat, WireError>)
    requires at <= |buf|
    ensures r.Ok? ==> at < r.value <= |buf|
  {
    var field: u64, wire := key / 8, key % 8;
    if wire == 0 then
      var (_, n) :- Decode(buf[at..]);
      Ok(at + n)
    else if wire == 1 then FixedEnd(buf, at, 8, field)
    else if wire == 5 then FixedEnd(buf, at, 4, field)
    else if wire == 2 then
      var (_, end) :- LenSpan(buf, at, field);
      Ok(end)
    else Err(UnsupportedWire(wire, field))
  }

  /** The first field of a nonempty buffer. */
  function ReadField(buf: seq<byte>): (r: Result<Field, WireError>)
    requires buf != []
    ensures r.Ok? ==> r.value.raw != [] && r.value.raw <= buf
  {
    var (key, n) :- Decode(buf);
    if key % 8 == 2 then
      var (start, end) :- LenSpan(buf, n, key / 8);
      Ok(Field(buf[..end], key, buf[start..end]))
    else
      var end :- BodyEnd(buf, n, key);
      Ok(Field(buf[..end], key, []))
  }

  /** Whether a message at this level of the path claims the field: below the last level, the
      `dim_param` (field 2, length-delimited) of a Dimension. */
  predicate Claimed(key: u64, path: Path) {
    key % 8 == 2 && if path == [] then key / 8 == 2 else key / 8 in path[0]
  }

  function ParseNode(f: Field, path: Path): Result<Node, WireError>
    decreases |path|, |f.payload|, 0
  {
    if !Claimed(f.key, path) then Ok(Copied(f.raw))
    else if path == [] then Ok(DimParam(f.raw, f.payload))
    else
      var children :- Parse(f.payload, path[1..]);
      Ok(Nested(f.key, children))
  }

  /** The tree of a message, or the first error met by a depth-first walk of it. */
  function Parse(buf: seq<byte>, path: Path): Result<seq<Node>, WireError>
    decreases |path|, |buf|, 1
  {
    if buf == [] then Ok([])
    else
      var f :- ReadField(buf);
      var node :- ParseNode(f, path);
      var rest :- Parse(buf[|f.raw|..], path);
      Ok([node] + rest)
  }

  // ---------------------------------------------------------------------------------------------
  // Substitution and printing

  /** The value of the first entry of `dims` named `name`. */
  function FindDim(dims: Dims, name: seq<byte>): (r: Option<u64>)
    ensures r.Some? <==> exists i :: 0 <= i < |dims| && dims[i].0 == name
    ensures r.Some? ==> exists i :: 0 <= i < |dims| && dims[i] == (name, r.value)
                                    && forall j :: 0 <= j < i ==> dims[j].0 != name
  {
    if dims == [] then None
    else if dims[0].0 == name then Some(dims[0].1)
    else
      var r := FindDim(dims[1..], name);
      assert forall i :: 0 <= i < |dims[1..]| ==> dims[1..][i] == dims[i + 1];
      r
  }

  /** `dim_value` (field 1, varint) carrying `v`. */
  function DimValue(v: u64): seq<byte> {
    Encode(8) + Encode(v)
  }

  function SubstNode(n: Node, dims: Dims): Node
    decreases n, 0
  {
    match n
    case Copied(_) => n
    case DimParam(_, name) =>
      (match FindDim(dims, name)
       case Some(v) => Copied(DimValue(v))
       case None => n)
    case Nested(key, children) => Nested(key, Subst(children, dims))
  }

  /** The tree with every named `dim_param` replaced by its `dim_value`. */
  function Subst(t: seq<Node>, dims: Dims): (r: seq<Node>)
    ensures |r| == |t|
    decreases t, 1
  {
    if t == [] then [] else [SubstNode(t[0], dims)] + Subst(t[1..], dims)
  }

  function EmitNode(n: Node): seq<byte>
    decreases n, 0
  {
    match n
    case Copied(raw) => raw
    case DimParam(raw, _) => raw
    case Nested(key, children) =>
      var payload := Emit(children);
      Encode(key) + Encode(|payload|) + payload
  }

  /** The bytes of a tree: claimed submessages get minimal tag and length prefixes. */
  function Emit(t: seq<Node>): seq<byte>
    decreases t, 1
  {
    if t == [] then [] else EmitNode(t[0]) + Emit(t[1..])
  }

  /** What the rewriter returns for a message at this level of the path. */
  function Fixed(buf: seq<byte>, path: Path, dims: Dims): Result<seq<byte>, WireError> {
    var t :- Parse(buf, path);
    Ok(Emit(Subst(t, dims)))
  }

  /** What the rewriter returns for a model. */
  function FixedModel(model: seq<byte>, dims: Dims): Result<seq<byte>, WireError> {
    Fixed(model, MODEL_PATH, dims)
  }

  // ---------------------------------------------------------------------------------------------
  // The byte walk

  method ReadLenPayloadEnd(buf: seq<byte>, start: nat, field: u64)
    returns (r: Result<nat, WireError>, pos: nat)
    requires start <= |buf|
    ensures match LenSpan(buf, start, field)
            case Err(e) => r == Err(e)
            case Ok((s, e)) => r == Ok(e) && pos == s
  {
    var len;
    len, pos := ReadVarint(buf, start);
    if len.Err? {
      return Err(len.error), pos;
    }
    if pos + len.value <= |buf| {
      r := Ok(pos + len.value);
    } else {
      r := Err(LengthOverrun(field));
    }
  }

  method AdvanceFixed(buf: seq<byte>, start: nat, width: nat, field: u64)
    returns (r: Result<(), WireError>, pos: nat)
    requires start <= |buf|
    ensures match FixedEnd(buf, start, width, field)
            case Err(e) => r == Err(e)
            case Ok(end) => r == Ok(()) && pos == end
  {
    pos := start;
    if start + width <= |buf| {
      pos := start + width;
      r := Ok(());
    } else {
      r := Err(FixedOverrun(field));
    }
  }

  method CopyFieldBody(buf: seq<byte>, start: nat, key: u64)
    returns (r: Result<(), WireError>, pos: nat)
    requires start <= |buf|
    ensures match BodyEnd(buf, start, key)
            case Err(e) => r == Err(e)
            case Ok(end) => r == Ok(()) && pos == end
  {
    var field: u64, wire := key / 8, key % 8;
    if wire == 0 {
      var v;
      v, pos := ReadVarint(buf, start);
      r := if v.Err? then Err(v.error) else Ok(());
    } else if wire == 1 {
      r, pos := AdvanceFixed(buf, start, 8, field);
    } else if wire == 5 {
      r, pos := AdvanceFixed(buf, start, 4, field);
    } else if wire == 2 {
      var end;
      end, pos := ReadLenPayloadEnd(buf, start, field);
      if end.Err? {
        r := Err(end.error);
      } else {
        pos := end.value;
        r := Ok(());
      }
    } else {
      pos := start;
      r := Err(UnsupportedWire(wire, field));
    }
  }

  /** `rewrite_dimension`. */
  method RewriteDimension(buf: seq<byte>, dims: Dims) returns (r: Result<seq<byte>, WireError>)
    ensures r == Fixed(buf, [], dims)
  {
    hide *;
    var out: seq<byte> := [];
    var pos := 0;
    ghost var done: seq<Node> := [];
    WalkStart(buf, [], dims);
    while pos < |buf|
      invariant 0 <= pos <= |buf|
      invariant Walked(buf, pos, [], dims, done, out)
      decreases |buf| - pos
    {
      var start := pos;
      FieldHere(buf, start, [], dims, done, out);
      var key;
      key, pos := ReadVarint(buf, pos);
      if key.Err? {
        return Err(key.error);
      }
      var field: u64, wire: u64 := key.value / 8, key.value % 8;
      ghost var f;
      if field == 2 && wire == 2 {
        var end;
        end, pos := ReadLenPayloadEnd(buf, pos, field);
        if end.Err? {
          return Err(end.error);
        }
        var payload := buf[pos..end.value];
        f := Field(buf[start..end.value], key.value, payload);
        DimStep(buf, start, dims, done, out, f);
        done := done + [DimParam(f.raw, payload)];
        var replacement := FindDim(dims, payload);
        match replacement {
          case Some(value) =>
            out := WriteVarint(out, 8); // dim_value, varint
            out := WriteVarint(out, value);
          case None =>
            out := out + buf[start..end.value];
        }
        pos := end.value;
      } else {
        var ok;
        ok, pos := CopyFieldBody(buf, pos, key.value);
        if ok.Err? {
          return Err(ok.error);
        }
        f := CopyStep(buf, start, [], dims, done, out);
        done := done + [Copied(f.raw)];
        out := out + buf[start..pos];
      }
    }
    WalkEnd(buf, [], dims, done, out);
    return Ok(out);
  }

  /** `rewrite_message`, for the message at this level of the path. */
  method RewriteMessage(buf: seq<byte>, path: Path, dims: Dims) returns (r: Result<seq<byte>, WireError>)
    requires path != []
    ensures r == Fixed(buf, path, dims)
    decreases |path|, 0
  {
    hide *;
    var out: seq<byte> := [];
    var pos := 0;
    ghost var done: seq<Node> := [];
    WalkStart(buf, path, dims);
    while pos < |buf|
      invariant 0 <= pos <= |buf|
      invariant Walked(buf, pos, path, dims, done, out)
      decreases |buf| - pos
    {
      var start := pos;
      FieldHere(buf, start, path, dims, done, out);
      var key;
      key, pos := ReadVarint(buf, pos);
      if key.Err? {
        return Err(key.error);
      }
      var field: u64, wire: u64 := key.value / 8, key.value % 8;
      ghost var f;
      if wire == 2 {
        var end;
        end, pos := ReadLenPayloadEnd(buf, pos, field);
        if end.Err? {
          return Err(end.error);
        }
        var payload := buf[pos..end.value];
        if field in path[0] {
          f := Field(buf[start..end.value], key.value, payload);
          ghost var node := NestedStep(buf, start, path, dims, done, out, f);
          var newPayload := Rewrite(payload, path[1..], dims);
          if newPayload.Err? {
            return Err(newPayload.error);
          }
          done := done + [node];
          out := WriteVarint(out, key.value);
          out := WriteVarint(out, |newPayload.value|);
          out := out + newPayload.value;
        } else {
          f := CopyStep(buf, start, path, dims, done, out);
          done := done + [Copied(f.raw)];
          out := out + buf[start..end.value];
        }
        pos := end.value;
      } else {
        var ok;
        ok, pos := CopyFieldBody(buf, pos, key.value);
        if ok.Err? {
          return Err(ok.error);
        }
        f := CopyStep(buf, start, path, dims, done, out);
        done := done + [Copied(f.raw)];
        out := out + buf[start..pos];
      }
    }
    WalkEnd(buf, path, dims, done, out);
    return Ok(out);
  }

  /** The closure handed down by the enclosing level. */
  method Rewrite(buf: seq<byte>, path: Path, dims: Dims) returns (r: Result<seq<byte>, WireError>)
    ensures r == Fixed(buf, path, dims)
    decreases |path|, 1
  {
    if path == [] {
      r := RewriteDimension(buf, dims);
    } else {
      r := RewriteMessage(buf, path, dims);
    }
  }

  /** `fix_graph_io_dims`. */
  method FixGraphIoDims(model: seq<byte>, dims: Dims) returns (r: Result<seq<byte>, WireError>)
    ensures r == FixedModel(model, dims)
  {
    r := Rewrite(model, MODEL_PATH, dims);
  }

  // ---------------------------------------------------------------------------------------------
  // The walk is parse, substitute, print

  function Prepend(done: seq<Node>, r: Result<seq<Node>, WireError>): Result<seq<Node>, WireError> {
    var t :- r;
    Ok(done + t)
  }

  /** Loop invariant of both walks: `done` is the tree of what lies before `pos`. */
  ghost predicate Walked(buf: seq<byte>, pos: nat, path: Path, dims: Dims, done: seq<Node>, out: seq<byte>) {
    && pos <= |buf|
    && out == Emit(Subst(done, dims))
    && Parse(buf, path) == Prepend(done, Parse(buf[pos..], path))
  }

  lemma WalkStart(buf: seq<byte>, path: Path, dims: Dims)
    ensures Walked(buf, 0, path, dims, [], [])
  {
    assert buf[0..] == buf;
    var r := Parse(buf, path);
    if r.Ok? {
      assert [] + r.value == r.value;
    }
  }

  lemma WalkEnd(buf: seq<byte>, path: Path, dims: Dims, done: seq<Node>, out: seq<byte>)
    requires Walked(buf, |buf|, path, dims, done, out)
    ensures Fixed(buf, path, dims) == Ok(out)
  {
    assert buf[|buf|..] == [];
    assert done + [] == done;
  }

  /** The spans found by the walk at `start` are those of the field that stands there, and an error
      met there is the error of the whole message. */
  lemma FieldHere(buf: seq<byte>, start: nat, path: Path, dims: Dims, done: seq<Node>, out: seq<byte>)
    requires Walked(buf, start, path, dims, done, out)
    requires start < |buf|
    ensures match Decode(buf[start..])
            case Err(e) => Fixed(buf, path, dims) == Err(e)
            case Ok((key, n)) =>
              && start + n <= |buf|
              && (Claimed(key, path) <==> key % 8 == 2 && if path == [] then key / 8 == 2 else key / 8 in path[0])
              && (key % 8 == 2 ==>
                    match LenSpan(buf, start + n, key / 8)
                    case Err(e) => Fixed(buf, path, dims) == Err(e)
                    case Ok((s, e)) =>
                      && start < s <= e <= |buf|
                      && ReadField(buf[start..]) == Ok(Field(buf[start..e], key, buf[s..e])))
              && match BodyEnd(buf, start + n, key)
                 case Err(e) => Fixed(buf, path, dims) == Err(e)
                 case Ok(e) =>
                   && start < e <= |buf|
                   && ReadField(buf[start..]).Ok?
                   && ReadField(buf[start..]).value.raw == buf[start..e]
                   && ReadField(buf[start..]).value.key == key
  {
    ReadFieldHere(buf, start);
    var f := ReadField(buf[start..]);
    if f.Err? {
      assert Parse(buf[start..], path) == Err(f.error);
    }
  }

  lemma ReadFieldHere(buf: seq<byte>, start: nat)
    requires start < |buf|
    ensures match Decode(buf[start..])
            case Err(e) => ReadField(buf[start..]) == Err(e)
            case Ok((key, n)) =>
              && start + n <= |buf|
              && (key % 8 == 2 ==>
                    match LenSpan(buf, start + n, key / 8)
                    case Err(e) => ReadField(buf[start..]) == Err(e)
                    case Ok((s, e)) => ReadField(buf[start..]) == Ok(Field(buf[start..e], key, buf[s..e])))
              && match BodyEnd(buf, start + n, key)
                 case Err(e) => ReadField(buf[start..]) == Err(e)
                 case Ok(e) =>
                   && ReadField(buf[start..]).Ok?
                   && ReadField(buf[start..]).value.raw == buf[start..e]
                   && ReadField(buf[start..]).value.key == key
  {
    hide Decode, FixedEnd;
    var rest := buf[start..];
    if Decode(rest).Ok? {
      var (key, n) := Decode(rest).value;
      ShiftBody(buf, start, n, key);
      var r := BodyEnd(buf, start + n, key);
      if r.Ok? {
        SuffixSlice(buf, start, start, r.value);
      }
      var span := LenSpan(buf, start + n, key / 8);
      if span.Ok? {
        SuffixSlice(buf, start, span.value.0, span.value.1);
      }
    }
  }

  lemma SuffixSlice(buf: seq<byte>, start: nat, a: nat, b: nat)
    requires start <= a <= b <= |buf|
    ensures buf[start..][a - start..b - start] == buf[a..b]
  {
  }

  /** Passing over an unclaimed field. */
  lemma CopyStep(buf: seq<byte>, start: nat, path: Path, dims: Dims, done: seq<Node>, out: seq<byte>)
    returns (f: Field)
    requires Walked(buf, start, path, dims, done, out)
    requires start < |buf| && ReadField(buf[start..]).Ok? && !Claimed(ReadField(buf[start..]).value.key, path)
    ensures ReadField(buf[start..]) == Ok(f)
    ensures Walked(buf, start + |f.raw|, path, dims, done + [Copied(f.raw)], out + f.raw)
  {
    f := ReadField(buf[start..]).value;
    Step(buf, start, path, dims, done, out, f, Copied(f.raw));
  }

  /** Meeting the `dim_param` of a Dimension. */
  lemma DimStep(buf: seq<byte>, start: nat, dims: Dims, done: seq<Node>, out: seq<byte>, f: Field)
    requires Walked(buf, start, [], dims, done, out)
    requires start < |buf| && ReadField(buf[start..]) == Ok(f) && Claimed(f.key, [])
    ensures var done' := done + [DimParam(f.raw, f.payload)];
            match FindDim(dims, f.payload)
            case Some(v) => Walked(buf, start + |f.raw|, [], dims, done', out + Encode(8) + Encode(v))
            case None => Walked(buf, start + |f.raw|, [], dims, done', out + f.raw)
  {
    hide ReadField, Encode, Walked;
    Step(buf, start, [], dims, done, out, f, DimParam(f.raw, f.payload));
    match FindDim(dims, f.payload)
    case Some(v) => assert out + Encode(8) + Encode(v) == out + DimValue(v);
    case None =>
  }

  /** Meeting a claimed submessage. */
  lemma NestedStep(buf: seq<byte>, start: nat, path: Path, dims: Dims, done: seq<Node>, out: seq<byte>, f: Field)
    returns (node: Node)
    requires path != [] && Walked(buf, start, path, dims, done, out)
    requires start < |buf| && ReadField(buf[start..]) == Ok(f) && Claimed(f.key, path)
    ensures match Fixed(f.payload, path[1..], dims)
            case Err(e) => Fixed(buf, path, dims) == Err(e)
            case Ok(p) => Walked(buf, start + |f.raw|, path, dims, done + [node],
                                 out + Encode(f.key) + Encode(|p|) + p)
  {
    hide ReadField, Encode;
    var children := Parse(f.payload, path[1..]);
    if children.Err? {
      node := Copied(f.raw);
      assert ParseNode(f, path) == Err(children.error);
    } else {
      node := Nested(f.key, children.value);
      Step(buf, start, path, dims, done, out, f, node);
      var p := Emit(Subst(children.value, dims));
      assert EmitNode(SubstNode(node, dims)) == Encode(f.key) + Encode(|p|) + p;
      assert out + Encode(f.key) + Encode(|p|) + p == out + (Encode(f.key) + Encode(|p|) + p);
    }
  }

  lemma Step(buf: seq<byte>, start: nat, path: Path, dims: Dims, done: seq<Node>, out: seq<byte>, f: Field,
             node: Node)
    requires Walked(buf, start, path, dims, done, out)
    requires start < |buf| && ReadField(buf[start..]) == Ok(f) && ParseNode(f, path) == Ok(node)
    ensures start + |f.raw| <= |buf|
    ensures Walked(buf, start + |f.raw|, path, dims, done + [node], out + EmitNode(SubstNode(node, dims)))
  {
    var rest := buf[start..];
    assert rest[|f.raw|..] == buf[start + |f.raw|..];
    PrependStep(done, node, Parse(buf[start + |f.raw|..], path));
    assert Emit(Subst(done + [node], dims)) == out + EmitNode(SubstNode(node, dims)) by {
      SubstAppend(done, [node], dims);
      EmitAppend(Subst(done, dims), Subst([node], dims));
      EmitOne(node, dims);
    }
  }

  lemma PrependStep(done: seq<Node>, node: Node, next: Result<seq<Node>, WireError>)
    ensures Prepend(done, Prepend([node], next)) == Prepend(done + [node], next)
  {
    if next.Ok? {
      assert done + ([node] + next.value) == (done + [node]) + next.value;
    }
  }

  lemma EmitOne(node: Node, dims: Dims)
    ensures Emit(Subst([node], dims)) == EmitNode(SubstNode(node, dims))
  {
    assert Subst([node], dims) == [SubstNode(node, dims)];
    assert Emit([SubstNode(node, dims)]) == EmitNode(SubstNode(node, dims)) + Emit([]);
  }

  /** Spans computed in a suffix are those computed in the whole buffer, shifted. */
  lemma ShiftBody(buf: seq<byte>, start: nat, n: nat, key: u64)
    requires start + n <= |buf|
    ensures match LenSpan(buf, start + n, key / 8)
            case Err(e) => LenSpan(buf[start..], n, key / 8) == Err(e)
            case Ok((s, e)) => LenSpan(buf[start..], n, key / 8) == Ok((s - start, e - start))
    ensures match BodyEnd(buf, start + n, key)
            case Err(e) => BodyEnd(buf[start..], n, key) == Err(e)
            case Ok(e) => BodyEnd(buf[start..], n, key) == Ok(e - start)
  {
    assert buf[start..][n..] == buf[start + n..];
  }

  lemma {:induction false} SubstAppend(a: seq<Node>, b: seq<Node>, dims: Dims)
    ensures Subst(a + b, dims) == Subst(a, dims) + Subst(b, dims)
  {
    if a == [] {
      assert a + b == b;
    } else {
      assert (a + b)[1..] == a[1..] + b;
      SubstAppend(a[1..], b, dims);
    }
  }

  lemma {:induction false} EmitAppend(a: seq<Node>, b: seq<Node>)
    ensures Emit(a + b) == Emit(a) + Emit(b)
  {
    if a == [] {
      assert a + b == b;
    } else {
      assert (a + b)[1..] == a[1..] + b;
      EmitAppend(a[1..], b);
    }
  }
}
