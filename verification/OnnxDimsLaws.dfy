/** What the ONNX rewrite means: it commutes with parsing, removes exactly the named dims, and is
    idempotent. A printed length is a `u64`, which every byte vector that fits in memory obeys; the
    laws about re-parsing the output assume it of the output alone. */
module OnnxDimsLaws {
  import opened Wrappers
  import opened Varint
  import opened OnnxDims

  // ---------------------------------------------------------------------------------------------
  // Trees that stand for themselves

  /** `raw` is exactly one field. */
  predicate OneField(raw: seq<byte>) {
    raw != [] && ReadField(raw).Ok? && ReadField(raw).value.raw == raw
  }

  predicate WellFormedNode(n: Node, path: Path)
    decreases n, 0
  {
    match n
    case Copied(raw) =>
      OneField(raw) && !Claimed(ReadField(raw).value.key, path)
    case DimParam(raw, name) =>
      path == [] && OneField(raw) && ReadField(raw).value == Field(raw, 18, name)
    case Nested(key, children) =>
      path != [] && Claimed(key, path) && WellFormed(children, path[1..])
  }

  /** A tree some message at this level of the path parses to. */
  predicate WellFormed(t: seq<Node>, path: Path)
    decreases t, 1
  {
    t == [] || (WellFormedNode(t[0], path) && WellFormed(t[1..], path))
  }

  lemma {:induction false} ParseWellFormed(buf: seq<byte>, path: Path)
    requires Parse(buf, path).Ok?
    ensures WellFormed(Parse(buf, path).value, path)
    decreases |path|, |buf|
  {
    if buf != [] {
      var f := ReadField(buf).value;
      var t := Parse(buf, path).value;
      ParseWellFormed(buf[|f.raw|..], path);
      ReadFieldLocal(buf, f.raw);
      if Claimed(f.key, path) && path != [] {
        ParseWellFormed(f.payload, path[1..]);
      }
      assert t[1..] == Parse(buf[|f.raw|..], path).value;
    }
  }

  // ---------------------------------------------------------------------------------------------
  // A field is read from its own bytes only

  lemma DecodeLocal(a: seq<byte>, b: seq<byte>)
    requires Decode(a).Ok?
    requires var n := Decode(a).value.1; n <= |b| && a[..n] == b[..n]
    ensures Decode(b) == Decode(a)
  {
    DecodeExact(a);
    DecodeExact(b);
  }

  /** Reading the first field gives the same field from any buffer that starts with its bytes. */
  lemma ReadFieldLocal(a: seq<byte>, b: seq<byte>)
    requires a != [] && b != [] && ReadField(a).Ok? && ReadField(a).value.raw <= b
    ensures ReadField(b) == ReadField(a)
  {
    hide Decode;
    var f := ReadField(a).value;
    var (key, n) := Decode(a).value;
    var end := |f.raw|;
    assert a[..end] == b[..end];
    assert a[..n] == a[..end][..n];
    assert b[..n] == b[..end][..n];
    DecodeLocal(a, b);
    if key % 8 == 2 || key % 8 == 0 {
      var m := Decode(a[n..]).value.1;
      assert a[n..][..m] == a[..end][n..n + m];
      assert b[n..][..m] == b[..end][n..n + m];
      DecodeLocal(a[n..], b[n..]);
    }
    if key % 8 == 2 {
      var (start, _) := LenSpan(a, n, key / 8).value;
      assert a[start..end] == a[..end][start..];
      assert b[start..end] == b[..end][start..];
    }
  }

  lemma ReadLenDelimited(buf: seq<byte>, key: u64, n: nat, len: u64, m: nat)
    requires Decode(buf) == Ok((key, n)) && key % 8 == 2 && n <= |buf|
    requires Decode(buf[n..]) == Ok((len, m)) && n + m + len <= |buf|
    ensures buf != [] && ReadField(buf) == Ok(Field(buf[..n + m + len], key, buf[n + m..n + m + len]))
  {
    hide Decode;
  }

  /** A claimed submessage printed by the rewriter reads back as one field. */
  lemma NestedReads(key: u64, payload: seq<byte>, post: seq<byte>)
    requires key % 8 == 2 && |payload| < TWO64
    ensures var raw := Encode(key) + Encode(|payload|) + payload;
            ReadField(raw + post) == Ok(Field(raw, key, payload))
  {
    hide Decode, Encode, ReadField;
    var k, l := Encode(key), Encode(|payload|);
    var buf := k + l + payload + post;
    NestedParts(k, l, payload, post);
    RoundTrip(key, l + payload + post);
    RoundTrip(|payload|, payload + post);
    ReadLenDelimited(buf, key, |k|, |payload|, |l|);
  }

  lemma NestedParts(k: seq<byte>, l: seq<byte>, payload: seq<byte>, post: seq<byte>)
    ensures var buf := k + l + payload + post;
            && buf == k + (l + payload + post)
            && buf[|k|..] == l + (payload + post)
            && buf[..|k| + |l| + |payload|] == k + l + payload
            && buf[|k| + |l|..|k| + |l| + |payload|] == payload
  {
  }

  /** The replacement of a `dim_param` reads back as field 1, a varint, whose body is the value. */
  lemma DimValueReads(v: u64, post: seq<byte>)
    ensures ReadField(DimValue(v) + post) == Ok(Field(DimValue(v), 8, []))
    ensures Decode(DimValue(v)[|Encode(8)|..] + post) == Ok((v, |Encode(v)|))
  {
    hide Decode, Encode;
    var k, l := Encode(8), Encode(v);
    var buf := DimValue(v) + post;
    assert buf == k + (l + post);
    RoundTrip(8, l + post);
    assert buf[|k|..] == l + post;
    RoundTrip(v, post);
    assert buf[..|k + l|] == k + l;
    assert DimValue(v)[|k|..] == l;
  }

  // ---------------------------------------------------------------------------------------------
  // Printing and parsing

  /** Printing a well-formed tree and parsing it gives the tree back. */
  lemma {:induction false} ParseEmit(t: seq<Node>, path: Path)
    requires WellFormed(t, path) && |Emit(t)| < TWO64
    ensures Parse(Emit(t), path) == Ok(t)
    decreases t
  {
    if t != [] {
      var raw, rest := EmitNode(t[0]), Emit(t[1..]);
      ParseEmit(t[1..], path);
      EmitNodeReads(t[0], path, rest);
      var buf := raw + rest;
      assert buf[|raw|..] == rest;
      if t[0].Nested? {
        ParseEmit(t[0].children, path[1..]);
      }
      assert ParseNode(ReadField(buf).value, path) == Ok(t[0]);
      assert [t[0]] + t[1..] == t;
    }
  }

  lemma EmitNodeReads(n: Node, path: Path, post: seq<byte>)
    requires WellFormedNode(n, path) && |EmitNode(n)| < TWO64
    ensures EmitNode(n) != []
    ensures ReadField(EmitNode(n) + post).Ok?
    ensures ReadField(EmitNode(n) + post).value.raw == EmitNode(n)
    ensures match n
            case Copied(_) => !Claimed(ReadField(EmitNode(n) + post).value.key, path)
            case DimParam(raw, name) => ReadField(EmitNode(n) + post) == Ok(Field(raw, 18, name))
            case Nested(key, children) => ReadField(EmitNode(n) + post) == Ok(Field(EmitNode(n), key, Emit(children)))
  {
    match n
    case Copied(raw) => ReadFieldLocal(raw, raw + post);
    case DimParam(raw, name) => ReadFieldLocal(raw, raw + post);
    case Nested(key, children) => NestedReads(key, Emit(children), post);
  }

  lemma {:induction false} SubstWellFormed(t: seq<Node>, path: Path, dims: Dims)
    requires WellFormed(t, path)
    ensures WellFormed(Subst(t, dims), path)
    decreases t
  {
    if t != [] {
      SubstWellFormed(t[1..], path, dims);
      match t[0] {
        case Copied(_) =>
        case DimParam(raw, name) =>
          if FindDim(dims, name).Some? {
            var v := FindDim(dims, name).value;
            DimValueReads(v, []);
            assert DimValue(v) + [] == DimValue(v);
          }
        case Nested(key, children) =>
          SubstWellFormed(children, path[1..], dims);
      }
    }
  }

  // ---------------------------------------------------------------------------------------------
  // Main results

  /** The rewrite commutes with parsing, and fails exactly when some message walked is ill-formed,
      with the error of the first one. */
  lemma RewriteCommutesWithParsing(buf: seq<byte>, path: Path, dims: Dims)
    ensures Fixed(buf, path, dims).Ok? <==> Parse(buf, path).Ok?
    ensures Parse(buf, path).Err? ==> Fixed(buf, path, dims) == Err(Parse(buf, path).error)
    ensures Fixed(buf, path, dims).Ok? && |Fixed(buf, path, dims).value| < TWO64
        ==> Parse(Fixed(buf, path, dims).value, path) == Ok(Subst(Parse(buf, path).value, dims))
  {
    if Parse(buf, path).Ok? && |Fixed(buf, path, dims).value| < TWO64 {
      var t := Parse(buf, path).value;
      ParseWellFormed(buf, path);
      SubstWellFormed(t, path, dims);
      ParseEmit(Subst(t, dims), path);
    }
  }

  /** The names of the `dim_param`s on the path, in document order. */
  function Params(t: seq<Node>): seq<seq<byte>>
    decreases t
  {
    if t == [] then []
    else
      (match t[0]
       case Copied(_) => []
       case DimParam(_, name) => [name]
       case Nested(_, children) => Params(children))
      + Params(t[1..])
  }

  function Unnamed(names: seq<seq<byte>>, dims: Dims): seq<seq<byte>> {
    if names == [] then []
    else (if FindDim(dims, names[0]).Some? then [] else [names[0]]) + Unnamed(names[1..], dims)
  }

  lemma {:induction false} UnnamedAppend(a: seq<seq<byte>>, b: seq<seq<byte>>, dims: Dims)
    ensures Unnamed(a + b, dims) == Unnamed(a, dims) + Unnamed(b, dims)
  {
    if a == [] {
      assert a + b == b;
    } else {
      assert (a + b)[1..] == a[1..] + b;
      UnnamedAppend(a[1..], b, dims);
    }
  }

  /** Substitution removes the named `dim_param`s and keeps every other one, in order. */
  lemma {:induction false} SubstParams(t: seq<Node>, dims: Dims)
    ensures Params(Subst(t, dims)) == Unnamed(Params(t), dims)
    decreases t
  {
    if t != [] {
      SubstParams(t[1..], dims);
      var head := match t[0]
        case Copied(_) => []
        case DimParam(_, name) => [name]
        case Nested(_, children) => Params(children);
      UnnamedAppend(head, Params(t[1..]), dims);
      match t[0] {
        case Copied(_) =>
        case DimParam(_, name) =>
          assert Unnamed([name], dims) == (if FindDim(dims, name).Some? then [] else [name]) + Unnamed([], dims);
        case Nested(_, children) => SubstParams(children, dims);
      }
      assert Subst(t, dims)[1..] == Subst(t[1..], dims);
    }
  }

  lemma {:induction false} UnnamedMembers(names: seq<seq<byte>>, dims: Dims)
    ensures forall name :: name in Unnamed(names, dims) <==> name in names && FindDim(dims, name).None?
  {
    if names != [] {
      UnnamedMembers(names[1..], dims);
      assert names == [names[0]] + names[1..];
    }
  }

  /** No named dim is left on any graph input or output, and no other one is lost. */
  lemma NamedParamsAreGone(buf: seq<byte>, path: Path, dims: Dims)
    requires Fixed(buf, path, dims).Ok? && |Fixed(buf, path, dims).value| < TWO64
    ensures var out := Parse(Fixed(buf, path, dims).value, path);
            && out.Ok?
            && Params(out.value) == Unnamed(Params(Parse(buf, path).value), dims)
            && (forall i :: 0 <= i < |dims| ==> dims[i].0 !in Params(out.value))
            && (forall name :: name in Params(Parse(buf, path).value) && FindDim(dims, name).None?
                           ==> name in Params(out.value))
  {
    RewriteCommutesWithParsing(buf, path, dims);
    var t := Parse(buf, path).value;
    SubstParams(t, dims);
    UnnamedMembers(Params(t), dims);
  }

  lemma {:induction false} SubstIdempotent(t: seq<Node>, dims: Dims)
    ensures Subst(Subst(t, dims), dims) == Subst(t, dims)
    decreases t
  {
    if t != [] {
      SubstIdempotent(t[1..], dims);
      if t[0].Nested? {
        SubstIdempotent(t[0].children, dims);
      }
      assert Subst(t, dims)[1..] == Subst(t[1..], dims);
    }
  }

  /** Rewriting twice gives the same bytes as rewriting once. */
  lemma RewriteIdempotent(buf: seq<byte>, path: Path, dims: Dims)
    requires Fixed(buf, path, dims).Ok? && |Fixed(buf, path, dims).value| < TWO64
    ensures Fixed(Fixed(buf, path, dims).value, path, dims) == Fixed(buf, path, dims)
  {
    RewriteCommutesWithParsing(buf, path, dims);
    SubstIdempotent(Parse(buf, path).value, dims);
  }

  /** A message with minimal prefixes and no named dim on the path comes back unchanged. */
  lemma UnnamedRoundTrips(t: seq<Node>, path: Path, dims: Dims)
    requires WellFormed(t, path) && |Emit(t)| < TWO64
    requires forall name :: name in Params(t) ==> FindDim(dims, name).None?
    ensures Fixed(Emit(t), path, dims) == Ok(Emit(t))
  {
    ParseEmit(t, path);
    SubstKeepsUnnamed(t, dims);
  }

  lemma {:induction false} SubstKeepsUnnamed(t: seq<Node>, dims: Dims)
    requires forall name :: name in Params(t) ==> FindDim(dims, name).None?
    ensures Subst(t, dims) == t
    decreases t
  {
    if t != [] {
      SubstKeepsUnnamed(t[1..], dims);
      if t[0].Nested? {
        SubstKeepsUnnamed(t[0].children, dims);
      }
    }
  }
}
