/** Where in a model the ONNX rewrite replaces a dim, in the tags that stand in the bytes. */
module OnnxDimsPlaces {
  import opened Wrappers
  import opened Varint
  import opened OnnxDims
  import opened OnnxDimsLaws

  // ---------------------------------------------------------------------------------------------
  // Fields of every wire type

  lemma FieldAt(key: u64, body: seq<byte>, post: seq<byte>)
    ensures var buf := Encode(key) + body + post;
            && buf != [] && Decode(buf) == Ok((key, |Encode(key)|))
            && buf[|Encode(key)|..] == body + post && buf[..|Encode(key) + body|] == Encode(key) + body
  {
    hide Decode, Encode;
    var k := Encode(key);
    assert k + body + post == k + (body + post);
    RoundTrip(key, body + post);
  }

  /** A tag of wire type 1 takes the next eight bytes, one of wire type 5 the next four, whatever they
      are; with fewer left the field overruns. */
  lemma FixedWidthReads(key: u64, body: seq<byte>, post: seq<byte>)
    requires key % 8 == 1 || key % 8 == 5
    ensures |body| == (if key % 8 == 1 then 8 else 4) ==>
              ReadField(Encode(key) + body + post) == Ok(Field(Encode(key) + body, key, []))
    ensures |body| < (if key % 8 == 1 then 8 else 4) && post == [] ==>
              ReadField(Encode(key) + body + post) == Err(FixedOverrun(key / 8))
  {
    FieldAt(key, body, post);
    hide Decode, Encode;
  }

  /** A tag of wire type 0 takes the next varint. */
  lemma VarintFieldReads(key: u64, v: u64, post: seq<byte>)
    requires key % 8 == 0
    ensures ReadField(Encode(key) + Encode(v) + post) == Ok(Field(Encode(key) + Encode(v), key, []))
  {
    FieldAt(key, Encode(v), post);
    RoundTrip(v, post);
    hide Decode, Encode;
  }

  /** A length-delimited field whose length exceeds the bytes left overruns. */
  lemma LengthOverruns(key: u64, length: u64, body: seq<byte>)
    requires key % 8 == 2 && |body| < length
    ensures ReadField(Encode(key) + Encode(length) + body) == Err(LengthOverrun(key / 8))
  {
    FieldAt(key, Encode(length), body);
    RoundTrip(length, body);
    hide Decode, Encode;
  }

  /** Every other wire type is refused. */
  lemma OtherWireTypesFail(key: u64, post: seq<byte>)
    requires key % 8 in {3, 4, 6, 7}
    ensures ReadField(Encode(key) + [] + post) == Err(UnsupportedWire(key % 8, key / 8))
  {
    FieldAt(key, [], post);
    hide Decode, Encode;
  }

  // ---------------------------------------------------------------------------------------------
  // Rewriting field by field

  /** A length-delimited field, its prefixes minimal. */
  function LenField(tag: u64, payload: seq<byte>): seq<byte> {
    Encode(tag) + Encode(|payload|) + payload
  }

  /** A message none of whose fields has one of the tags. */
  predicate Beside(buf: seq<byte>, tags: set<u64>)
    decreases |buf|
  {
    buf == [] || (ReadField(buf).Ok? && ReadField(buf).value.key !in tags
                  && Beside(buf[|ReadField(buf).value.raw|..], tags))
  }

  ghost predicate ClaimsWithin(path: Path, tags: set<u64>) {
    forall key: u64 :: Claimed(key, path) ==> key in tags
  }

  /** The rewrite of a message is that of its first field followed by that of the others. */
  lemma FixedCons(buf: seq<byte>, path: Path, dims: Dims)
    requires buf != [] && ReadField(buf).Ok? && ParseNode(ReadField(buf).value, path).Ok?
    requires Fixed(buf[|ReadField(buf).value.raw|..], path, dims).Ok?
    ensures var f := ReadField(buf).value;
            Fixed(buf, path, dims)
            == Ok(EmitNode(SubstNode(ParseNode(f, path).value, dims)) + Fixed(buf[|f.raw|..], path, dims).value)
  {
    hide ReadField, ParseNode, EmitNode, SubstNode;
    var f := ReadField(buf).value;
    var node, rest := ParseNode(f, path).value, Parse(buf[|f.raw|..], path).value;
    assert Parse(buf, path) == Ok([node] + rest);
    hide Parse;
    assert ([node] + rest)[1..] == rest;
    var tail := Subst(rest, dims);
    assert Subst([node] + rest, dims) == [SubstNode(node, dims)] + tail;
    hide Subst;
    assert ([SubstNode(node, dims)] + tail)[1..] == tail;
  }

  /** The first field beside, and what follows it. */
  lemma BesideStep(buf: seq<byte>, rest: seq<byte>, tags: set<u64>)
    requires buf != [] && Beside(buf, tags)
    ensures ReadField(buf).Ok? && ReadField(buf + rest) == ReadField(buf)
    ensures var f := ReadField(buf).value;
            f.key !in tags && f.raw != [] && f.raw <= buf && Beside(buf[|f.raw|..], tags)
            && (buf + rest)[|f.raw|..] == buf[|f.raw|..] + rest
  {
    ReadFieldLocal(buf, buf + rest);
    hide ReadField;
  }

  lemma Glue(buf: seq<byte>, raw: seq<byte>, rest: seq<byte>)
    requires raw <= buf
    ensures raw + (buf[|raw|..] + rest) == buf + rest
  {
  }

  /** Fields that are not claimed come through verbatim. */
  lemma {:induction false} BesideIsCopied(buf: seq<byte>, rest: seq<byte>, tags: set<u64>, path: Path, dims: Dims)
    requires Beside(buf, tags) && ClaimsWithin(path, tags) && Fixed(rest, path, dims).Ok?
    ensures Fixed(buf + rest, path, dims) == Ok(buf + Fixed(rest, path, dims).value)
    decreases |buf|
  {
    hide Beside, Fixed, ReadField, Claimed, ParseNode, EmitNode, SubstNode;
    if buf == [] {
      assert buf + rest == rest;
      assert buf + Fixed(rest, path, dims).value == Fixed(rest, path, dims).value;
    } else {
      BesideStep(buf, rest, tags);
      var f := ReadField(buf).value;
      var others := buf[|f.raw|..];
      BesideIsCopied(others, rest, tags, path, dims);
      assert !Claimed(f.key, path);
      hide ClaimsWithin;
      CopiedNode(f, path, dims);
      FixedCons(buf + rest, path, dims);
      Glue(buf, f.raw, Fixed(rest, path, dims).value);
    }
  }

  lemma CopiedNode(f: Field, path: Path, dims: Dims)
    requires !Claimed(f.key, path)
    ensures ParseNode(f, path).Ok? && EmitNode(SubstNode(ParseNode(f, path).value, dims)) == f.raw
  {
  }

  lemma NestedNode(f: Field, path: Path, dims: Dims)
    requires Claimed(f.key, path) && path != [] && Fixed(f.payload, path[1..], dims).Ok?
    ensures ParseNode(f, path).Ok?
    ensures EmitNode(SubstNode(ParseNode(f, path).value, dims)) == LenField(f.key, Fixed(f.payload, path[1..], dims).value)
  {
    hide Parse, Emit, Subst;
  }

  lemma DimNode(f: Field, dims: Dims)
    requires f.key == 18
    ensures ParseNode(f, []).Ok?
    ensures EmitNode(SubstNode(ParseNode(f, []).value, dims))
         == if FindDim(dims, f.payload).Some? then DimValue(FindDim(dims, f.payload).value) else f.raw
  {
    hide DimValue, FindDim, Parse, Emit, Subst;
    assert Claimed(18, []);
    assert ParseNode(f, []) == Ok(DimParam(f.raw, f.payload));
  }

  lemma FieldThenCopied(f: Field, post: seq<byte>, path: Path, dims: Dims)
    requires f.raw != [] && ReadField(f.raw + post) == Ok(f) && Fixed(post, path, dims) == Ok(post)
    requires ParseNode(f, path).Ok?
    ensures Fixed(f.raw + post, path, dims) == Ok(EmitNode(SubstNode(ParseNode(f, path).value, dims)) + post)
  {
    hide Fixed, ReadField, ParseNode, EmitNode, SubstNode;
    assert (f.raw + post)[|f.raw|..] == post;
    FixedCons(f.raw + post, path, dims);
  }

  lemma Around(pre: seq<byte>, mid: seq<byte>, post: seq<byte>)
    ensures pre + mid + post == pre + (mid + post)
  {
  }

  /** One level: fields beside, then the length-delimited field, then fields beside. */
  lemma LevelIsFixed(pre: seq<byte>, tag: u64, payload: seq<byte>, post: seq<byte>, tags: set<u64>, path: Path,
                     dims: Dims, fixed: seq<byte>)
    requires Beside(pre, tags) && Beside(post, tags) && ClaimsWithin(path, tags)
    requires tag % 8 == 2 && |payload| < TWO64
    requires var f := Field(LenField(tag, payload), tag, payload);
             ParseNode(f, path).Ok? && EmitNode(SubstNode(ParseNode(f, path).value, dims)) == fixed
    ensures Fixed(pre + LenField(tag, payload) + post, path, dims) == Ok(pre + fixed + post)
  {
    var raw := LenField(tag, payload);
    NestedReads(tag, payload, post);
    LenFieldIsText(tag, payload);
    hide Fixed, ReadField, ParseNode, EmitNode, SubstNode, LenField, Beside, ClaimsWithin, Encode;
    PostIsCopied(post, tags, path, dims);
    FieldThenCopied(Field(raw, tag, payload), post, path, dims);
    BesideIsCopied(pre, raw + post, tags, path, dims);
    Around(pre, raw, post);
    Around(pre, fixed, post);
  }

  lemma LenFieldIsText(tag: u64, payload: seq<byte>)
    requires |payload| < TWO64
    ensures LenField(tag, payload) != []
  {
    RoundTrip(tag, []);
  }

  lemma PostIsCopied(post: seq<byte>, tags: set<u64>, path: Path, dims: Dims)
    requires Beside(post, tags) && ClaimsWithin(path, tags)
    ensures Fixed(post, path, dims) == Ok(post)
  {
    assert Fixed([], path, dims) == Ok([]);
    hide Fixed;
    BesideIsCopied(post, [], tags, path, dims);
    assert post + [] == post;
  }

  // ---------------------------------------------------------------------------------------------
  // The place of a dim

  /** One message around the next: a length-delimited field and the fields before and after it. */
  datatype Level = Level(tag: u64, pre: seq<byte>, post: seq<byte>)

  function Nest(levels: seq<Level>, core: seq<byte>): seq<byte> {
    if levels == [] then core
    else levels[0].pre + LenField(levels[0].tag, Nest(levels[1..], core)) + levels[0].post
  }

  ghost predicate AllWithin(levels: seq<Level>, tags: seq<set<u64>>) {
    |levels| == |tags| && forall i :: 0 <= i < |levels| ==> levels[i].tag in tags[i]
  }

  ghost predicate LevelsBeside(levels: seq<Level>, tags: seq<set<u64>>) {
    |levels| == |tags|
    && forall i :: 0 <= i < |levels| ==>
         levels[i].tag % 8 == 2 && Beside(levels[i].pre, tags[i]) && Beside(levels[i].post, tags[i])
  }

  /** The path claims, level by level, exactly the length-delimited fields with these tags. */
  ghost predicate PathHasTags(path: Path, tags: seq<set<u64>>) {
    |path| == |tags|
    && forall i, key: u64 :: 0 <= i < |path| ==> (Claimed(key, path[i..]) <==> key in tags[i])
  }

  lemma PathTail(path: Path, tags: seq<set<u64>>)
    requires PathHasTags(path, tags) && path != []
    ensures PathHasTags(path[1..], tags[1..])
    ensures ClaimsWithin(path, tags[0]) && forall key: u64 :: Claimed(key, path) <==> key in tags[0]
  {
    hide Claimed;
    assert path[0..] == path;
    forall i, key: u64 | 0 <= i < |path[1..]|
      ensures Claimed(key, path[1..][i..]) <==> key in tags[1..][i]
    {
      assert path[1..][i..] == path[i + 1..];
    }
  }

  lemma LevelsTail(levels: seq<Level>, tags: seq<set<u64>>)
    requires LevelsBeside(levels, tags) && levels != []
    ensures LevelsBeside(levels[1..], tags[1..])
    ensures levels[0].tag % 8 == 2 && Beside(levels[0].pre, tags[0]) && Beside(levels[0].post, tags[0])
    ensures AllWithin(levels, tags) <==> levels[0].tag in tags[0] && AllWithin(levels[1..], tags[1..])
  {
    hide Beside;
    assert forall i :: 0 < i < |levels| ==> levels[i] == levels[1..][i - 1] && tags[i] == tags[1..][i - 1];
    if levels[0].tag in tags[0] && AllWithin(levels[1..], tags[1..]) {
      forall i | 0 <= i < |levels|
        ensures levels[i].tag in tags[i]
      {
        assert i > 0 ==> levels[1..][i - 1].tag in tags[1..][i - 1];
      }
    }
  }

  lemma {:induction false} NestIsFixed(levels: seq<Level>, tags: seq<set<u64>>, core: seq<byte>, fixed: seq<byte>,
                                       path: Path, dims: Dims)
    requires PathHasTags(path, tags) && LevelsBeside(levels, tags) && |Nest(levels, core)| < TWO64
    requires Fixed(core, [], dims) == Ok(fixed)
    ensures Fixed(Nest(levels, core), path, dims) == Ok(Nest(levels, if AllWithin(levels, tags) then fixed else core))
    decreases |levels|
  {
    hide Fixed, Beside, ParseNode, EmitNode, SubstNode, Encode;
    if levels == [] {
      assert path == [];
    } else {
      var top, rest := levels[0], levels[1..];
      var payload := Nest(rest, core);
      PathTail(path, tags);
      LevelsTail(levels, tags);
      NestIsFixed(rest, tags[1..], core, fixed, path[1..], dims);
      var f := Field(LenField(top.tag, payload), top.tag, payload);
      hide Nest, PathHasTags, LevelsBeside, AllWithin, ClaimsWithin, LenField, Claimed;
      if top.tag in tags[0] {
        NestedNode(f, path, dims);
        LevelIsFixed(top.pre, top.tag, payload, top.post, tags[0], path, dims,
                     LenField(top.tag, Fixed(payload, path[1..], dims).value));
      } else {
        CopiedNode(f, path, dims);
        LevelIsFixed(top.pre, top.tag, payload, top.post, tags[0], path, dims, f.raw);
      }
      NestCons(levels, core);
      NestCons(levels, fixed);
    }
  }

  lemma NestCons(levels: seq<Level>, core: seq<byte>)
    requires levels != []
    ensures Nest(levels, core) == levels[0].pre + LenField(levels[0].tag, Nest(levels[1..], core)) + levels[0].post
  {
  }

  /** The tags, field number times eight plus two, from the model down to the dimension: graph, input or
      output, type, tensor_type, shape, dim. */
  const PLACE: seq<set<u64>> := [{58}, {90, 98}, {18}, {10}, {18}, {10}]

  lemma ModelPathHasTags()
    ensures PathHasTags(MODEL_PATH, PLACE)
  {
    assert MODEL_PATH == [{7}, {11, 12}, {2}, {1}, {2}, {1}];
    forall i, key: u64 | 0 <= i < 6
      ensures Claimed(key, MODEL_PATH[i..]) <==> key in PLACE[i]
    {
      assert MODEL_PATH[i..] != [] && MODEL_PATH[i..][0] == MODEL_PATH[i];
    }
  }

  lemma TagOfDimValue(v: u64)
    ensures DimValue(v) == [8] + Encode(v)
  {
    assert Encode(8) == [8];
    hide Encode;
  }

  /** What becomes of a Dimension with one `dim_param`, tag 18, and other fields beside it. */
  lemma DimensionIsFixed(pre: seq<byte>, name: seq<byte>, post: seq<byte>, dims: Dims)
    requires Beside(pre, {18}) && Beside(post, {18}) && |name| < TWO64
    ensures Fixed(pre + LenField(18, name) + post, [], dims)
         == Ok(pre + (match FindDim(dims, name) case Some(v) => [8] + Encode(v) case None => LenField(18, name)) + post)
  {
    hide Fixed, Encode, Beside;
    var f := Field(LenField(18, name), 18, name);
    DimNode(f, dims);
    if FindDim(dims, name).Some? {
      TagOfDimValue(FindDim(dims, name).value);
    }
    var fixed := EmitNode(SubstNode(ParseNode(f, []).value, dims));
    hide ParseNode, EmitNode, SubstNode, LenField;
    LevelIsFixed(pre, 18, name, post, {18}, [], dims, fixed);
  }

  /** Exactly where a dim is replaced: a `dim_param` inside six nested length-delimited fields, with other
      fields beside it at every level, becomes tag 8 and the first listed value of its name if and only if
      the six tags are 58, 90 or 98, 18, 10, 18 and 10. Otherwise the bytes come back as they were. */
  lemma DimIsReplacedExactlyThere(levels: seq<Level>, pre: seq<byte>, name: seq<byte>, post: seq<byte>, dims: Dims)
    requires LevelsBeside(levels, [{58}, {90, 98}, {18}, {10}, {18}, {10}])
    requires Beside(pre, {18}) && Beside(post, {18}) && |name| < TWO64
    requires |Nest(levels, pre + LenField(18, name) + post)| < TWO64
    ensures var there := AllWithin(levels, [{58}, {90, 98}, {18}, {10}, {18}, {10}]);
            FixedModel(Nest(levels, pre + LenField(18, name) + post), dims)
            == Ok(Nest(levels, pre + (match FindDim(dims, name)
                                      case Some(v) => if there then [8] + Encode(v) else LenField(18, name)
                                      case None => LenField(18, name)) + post))
  {
    hide Fixed, Encode, Beside, LenField, Nest, LevelsBeside, PathHasTags;
    ModelPathHasTags();
    DimensionIsFixed(pre, name, post, dims);
    var core := pre + LenField(18, name) + post;
    NestIsFixed(levels, PLACE, core, Fixed(core, [], dims).value, MODEL_PATH, dims);
  }
}
