/** The constant pools of tut_codegen.c: the INT and STR cases of
    Tut_CompileValueExpr. An int literal is pooled as a 4-byte value, a
    string literal as a 4-byte length followed by its bytes; each literal
    emits its push opcode followed by the 4-byte pool offset of its value.
    Both buffers are the fixed-size arrays of TutCodegen. */
module ConstPool {
  import opened Wrappers
  import opened Buf

  const MaxData: nat := 4096
  const MaxCode: nat := 4096
  const MaxIntegers: nat := 256
  const MaxStrings: nat := 128

  /** The opcodes' positions in TutOpcode. */
  const PushIntOp: byte := 2
  const PushCStrOp: byte := 4

  const IntMin: int := -0x8000_0000
  const IntMax: int := 0x7FFF_FFFF

  /** The pool state of TutCodegen: the data and code buffers with their
      used lengths, and the offsets of the pooled ints and strings. The
      float pool is not part of this model. */
  datatype Gen = Gen(
    data: seq<byte>, dataLength: nat,
    ints: seq<nat>, strs: seq<nat>,
    code: seq<byte>, codeLength: nat)

  /** A C string: no NUL byte before its end. */
  predicate NoNul(s: seq<byte>) {
    forall k :: 0 <= k < |s| ==> s[k] != 0
  }

  /** A string entry in the first `used` bytes of `data`: its length field
      and its bytes lie there, and the bytes hold no NUL. */
  predicate StrEntry(data: seq<byte>, used: nat, off: nat)
    requires used <= |data|
  {
    off + 4 <= used
    && off + 4 + ReadUnsigned(data, off, W32) <= used
    && NoNul(data[off + 4..off + 4 + ReadUnsigned(data, off, W32)])
  }

  /** The bytes of the string entry at `off`. */
  function Pooled(data: seq<byte>, off: nat): seq<byte>
    requires off + 4 <= |data| && off + 4 + ReadUnsigned(data, off, W32) <= |data|
  {
    data[off + 4..off + 4 + ReadUnsigned(data, off, W32)]
  }

  predicate Valid(g: Gen) {
    && |g.data| == MaxData && g.dataLength <= MaxData
    && |g.code| == MaxCode && g.codeLength <= MaxCode
    && |g.ints| <= MaxIntegers && |g.strs| <= MaxStrings
    && (forall i :: 0 <= i < |g.ints| ==> g.ints[i] + 4 <= g.dataLength)
    && (forall i :: 0 <= i < |g.strs| ==> StrEntry(g.data, g.dataLength, g.strs[i]))
  }

  /** Tut_InitCodegen: empty pools and empty code; the buffers keep
      whatever they held. */
  function Init(data: seq<byte>, code: seq<byte>): (g: Gen)
    requires |data| == MaxData && |code| == MaxCode
    ensures Valid(g)
    ensures g.ints == [] && g.strs == [] && g.dataLength == 0 && g.codeLength == 0
  {
    Gen(data, 0, [], [], code, 0)
  }

  // ---------------------------------------------------------------------
  // Emission

  /** The opcode byte at `codeLength`, then the offset as a uint32. */
  function EmitPush(g: Gen, op: byte, off: nat): (r: Gen)
    requires |g.code| == MaxCode && g.codeLength + 5 <= MaxCode && off < Range(W32)
    ensures r.data == g.data && r.dataLength == g.dataLength && r.ints == g.ints && r.strs == g.strs
    ensures |r.code| == MaxCode && r.codeLength == g.codeLength + 5
    ensures r.code[..g.codeLength] == g.code[..g.codeLength]
    ensures r.code[g.codeLength] == op
    ensures ReadUnsigned(r.code, g.codeLength + 1, W32) == off
    ensures r.code[g.codeLength + 5..] == g.code[g.codeLength + 5..]
  {
    var withOp := g.code[g.codeLength := op];
    var code := WriteUnsigned(withOp, g.codeLength + 1, W32, off);
    ReadAfterWriteUnsigned(withOp, g.codeLength + 1, W32, off);
    assert code[..g.codeLength] == g.code[..g.codeLength];
    assert code[g.codeLength + 5..] == g.code[g.codeLength + 5..];
    g.(code := code, codeLength := g.codeLength + 5)
  }

  // ---------------------------------------------------------------------
  // Ints

  /** The lookup loop of the INT case: the first pooled int equal to `v`. */
  function FindInt(g: Gen, v: int, i: nat): (r: Option<nat>)
    requires Valid(g) && i <= |g.ints|
    ensures r.Some? <==> exists k :: i <= k < |g.ints| && ReadSigned(g.data, g.ints[k], W32) == v
    ensures r.Some? ==> exists k :: i <= k < |g.ints| && g.ints[k] == r.value
    ensures r.Some? ==> r.value + 4 <= g.dataLength && ReadSigned(g.data, r.value, W32) == v
    decreases |g.ints| - i
  {
    if i == |g.ints| then None
    else if ReadSigned(g.data, g.ints[i], W32) == v then Some(g.ints[i])
    else FindInt(g, v, i + 1)
  }

  /** What the INT case demands: a 32-bit value, room for the instruction,
      and room in the pool when the value is new. */
  predicate IntRoom(g: Gen, v: int)
    requires Valid(g)
  {
    && IntMin <= v <= IntMax
    && g.codeLength + 5 <= MaxCode
    && (FindInt(g, v, 0).None? ==> g.dataLength + 4 <= MaxData && |g.ints| < MaxIntegers)
  }

  /** The INT case: reuse the value's pool entry or append one at the end
      of the data, then emit PUSH_INT with the entry's offset. */
  function PushInt(g: Gen, v: int): Gen
    requires Valid(g) && IntRoom(g, v)
  {
    var found := FindInt(g, v, 0);
    if found.Some? then EmitPush(g, PushIntOp, found.value)
    else EmitPush(AppendInt(g, v), PushIntOp, g.dataLength)
  }

  /** A new pool entry for an int: the value at the end of the data. */
  function AppendInt(g: Gen, v: int): (r: Gen)
    requires |g.data| == MaxData && g.dataLength + 4 <= MaxData && IntMin <= v <= IntMax
    ensures |r.data| == MaxData && r.code == g.code && r.codeLength == g.codeLength
  {
    g.(data := WriteSigned(g.data, g.dataLength, W32, v), dataLength := g.dataLength + 4,
       ints := g.ints + [g.dataLength])
  }

  /** The pools stay well formed. */
  lemma PushIntValid(g: Gen, v: int)
    requires Valid(g) && IntRoom(g, v)
    ensures Valid(PushInt(g, v))
  {
    if FindInt(g, v, 0).None? {
      var g1 := AppendInt(g, v);
      assert g1.data[..g.dataLength] == g.data[..g.dataLength];
      assert g1.strs[..|g.strs|] == g.strs;
      StillEntries(g, g1);
    }
  }

  /** Writing past the used data keeps a string entry. */
  lemma EntryKept(data: seq<byte>, used: nat, data1: seq<byte>, used1: nat, off: nat)
    requires used <= used1 <= |data1| && used <= |data|
    requires data1[..used] == data[..used]
    requires StrEntry(data, used, off)
    ensures StrEntry(data1, used1, off) && Pooled(data1, off) == Pooled(data, off)
  {
    assert data1[off..off + 4] == data1[..used][off..off + 4] == data[..used][off..off + 4] == data[off..off + 4];
    var n := ReadUnsigned(data, off, W32);
    assert data1[off + 4..off + 4 + n] == data1[..used][off + 4..off + 4 + n]
        == data[..used][off + 4..off + 4 + n] == data[off + 4..off + 4 + n];
  }

  /** Writing past the used data keeps every entry. */
  lemma StillEntries(g: Gen, g1: Gen)
    requires Valid(g)
    requires |g1.data| == MaxData && g.dataLength <= g1.dataLength <= MaxData
    requires g1.data[..g.dataLength] == g.data[..g.dataLength]
    requires |g1.code| == MaxCode && g1.codeLength <= MaxCode
    requires |g1.ints| <= MaxIntegers && |g1.strs| <= MaxStrings
    requires forall i :: 0 <= i < |g1.ints| ==> g1.ints[i] + 4 <= g1.dataLength
    requires |g.strs| <= |g1.strs| && g1.strs[..|g.strs|] == g.strs
    requires forall i :: |g.strs| <= i < |g1.strs| ==> StrEntry(g1.data, g1.dataLength, g1.strs[i])
    ensures Valid(g1)
  {
    forall i | 0 <= i < |g.strs|
      ensures StrEntry(g1.data, g1.dataLength, g1.strs[i])
    {
      assert g1.strs[i] == g1.strs[..|g.strs|][i];
      EntryKept(g.data, g.dataLength, g1.data, g1.dataLength, g.strs[i]);
    }
  }

  /** A repeated int reuses its entry: the pool is unchanged, and the
      instruction's operand is the offset of an entry holding the value. */
  lemma IntReused(g: Gen, v: int)
    requires Valid(g) && IntRoom(g, v)
    requires exists k :: 0 <= k < |g.ints| && ReadSigned(g.data, g.ints[k], W32) == v
    ensures var r := PushInt(g, v);
      && r.ints == g.ints && r.dataLength == g.dataLength && r.data == g.data
      && ReadUnsigned(r.code, g.codeLength + 1, W32) in g.ints
  {
  }

  /** A new int is written at the old end of the data, its offset is
      appended to the pool and the data grows by 4; the data before it is
      kept. */
  lemma IntAdded(g: Gen, v: int)
    requires Valid(g) && IntRoom(g, v)
    requires forall k :: 0 <= k < |g.ints| ==> ReadSigned(g.data, g.ints[k], W32) != v
    ensures var r := PushInt(g, v);
      && r.ints == g.ints + [g.dataLength]
      && r.dataLength == g.dataLength + 4
      && r.data[..g.dataLength] == g.data[..g.dataLength]
      && ReadUnsigned(r.code, g.codeLength + 1, W32) == g.dataLength
  {
    var off := g.dataLength;
    assert WriteSigned(g.data, off, W32, v)[..off] == g.data[..off];
  }

  /** Every int literal emits PUSH_INT and the offset of a pool entry that
      reads back as the literal; the code grows by 5 bytes and its earlier
      bytes are kept. */
  lemma PushIntRoundTrip(g: Gen, v: int)
    requires Valid(g) && IntRoom(g, v)
    ensures var r := PushInt(g, v);
      && r.codeLength == g.codeLength + 5
      && r.code[..g.codeLength] == g.code[..g.codeLength]
      && r.code[g.codeLength] == PushIntOp
      && ReadUnsigned(r.code, g.codeLength + 1, W32) + 4 <= r.dataLength
      && ReadSigned(r.data, ReadUnsigned(r.code, g.codeLength + 1, W32), W32) == v
  {
    if FindInt(g, v, 0).None? {
      ReadAfterWriteSigned(g.data, g.dataLength, W32, v);
    }
  }

  // ---------------------------------------------------------------------
  // Strings

  /** Tut_Strncmp(s, b, n) == 0 for a C string `s` and the bytes `b`, as
      the C library's strncmp: the first `n` positions agree, where the
      comparison stops at the first NUL the two share. `s`'s terminating NUL
      is the byte after its end. */
  predicate StrnEqual(s: seq<byte>, b: seq<byte>, n: nat)
    requires n <= |b|
  {
    forall k :: 0 <= k < n && k <= |s| ==> (if k < |s| then s[k] else 0) == b[k]
  }

  /** The lookup loop of the STR case as written: an entry matches when
      strncmp over the entry's length finds no difference. */
  function FindStrAsWritten(g: Gen, s: seq<byte>, i: nat): (r: Option<nat>)
    requires Valid(g) && i <= |g.strs|
    ensures r.Some? ==> exists k :: i <= k < |g.strs| && g.strs[k] == r.value
    ensures r.Some? ==> StrEntry(g.data, g.dataLength, r.value)
    ensures r.Some? ==> StrnEqual(s, Pooled(g.data, r.value), |Pooled(g.data, r.value)|)
    decreases |g.strs| - i
  {
    if i == |g.strs| then None
    else
      var p := Pooled(g.data, g.strs[i]);
      if StrnEqual(s, p, |p|) then Some(g.strs[i]) else FindStrAsWritten(g, s, i + 1)
  }

  /** Against a pooled C string, the test as written is a prefix test: it
      accepts exactly the entries that are a prefix of the literal. */
  lemma AsWrittenMatchIsPrefix(s: seq<byte>, p: seq<byte>)
    requires NoNul(s) && NoNul(p)
    ensures StrnEqual(s, p, |p|) <==> |p| <= |s| && s[..|p|] == p
  {
    if |p| > |s| {
      assert p[|s|] != 0;
      assert !StrnEqual(s, p, |p|);
    }
    if |p| <= |s| && s[..|p|] == p {
      forall k | 0 <= k < |p|
        ensures s[k] == p[k]
      {
        assert s[..|p|][k] == s[k];
      }
    }
  }

  /** The corrected test: the entry holds exactly the literal. */
  function FindStr(g: Gen, s: seq<byte>, i: nat): (r: Option<nat>)
    requires Valid(g) && i <= |g.strs|
    ensures r.Some? <==> exists k :: i <= k < |g.strs| && Pooled(g.data, g.strs[k]) == s
    ensures r.Some? ==> exists k :: i <= k < |g.strs| && g.strs[k] == r.value
    ensures r.Some? ==> StrEntry(g.data, g.dataLength, r.value) && Pooled(g.data, r.value) == s
    decreases |g.strs| - i
  {
    if i == |g.strs| then None
    else if Pooled(g.data, g.strs[i]) == s then Some(g.strs[i])
    else FindStr(g, s, i + 1)
  }

  /** What the STR case demands: a C string, room for the instruction, and
      room in the pool when the literal is new. */
  predicate StrRoom(g: Gen, s: seq<byte>)
    requires Valid(g)
  {
    && NoNul(s)
    && g.codeLength + 5 <= MaxCode
    && (FindStr(g, s, 0).None? ==> g.dataLength + 4 + |s| <= MaxData && |g.strs| < MaxStrings)
  }

  /** A new entry: the length as a uint32 at the end of the data, then the
      bytes. */
  function AppendStr(g: Gen, s: seq<byte>): (r: Gen)
    requires |g.data| == MaxData && g.dataLength + 4 + |s| <= MaxData
    ensures |r.data| == MaxData && r.code == g.code && r.codeLength == g.codeLength
  {
    var off := g.dataLength;
    g.(data := g.data[..off] + Encode(|s|, 4) + s + g.data[off + 4 + |s|..],
       dataLength := off + 4 + |s|, strs := g.strs + [off])
  }

  /** The new entry reads back as the literal, and the data before it is
      kept. */
  lemma AppendStrReads(g: Gen, s: seq<byte>)
    requires |g.data| == MaxData && g.dataLength + 4 + |s| <= MaxData
    ensures var r := AppendStr(g, s);
      && r.data[..g.dataLength] == g.data[..g.dataLength]
      && ReadUnsigned(r.data, g.dataLength, W32) == |s|
      && r.data[g.dataLength + 4..g.dataLength + 4 + |s|] == s
  {
    var off := g.dataLength;
    var r := AppendStr(g, s);
    assert r.data[off..off + 4] == Encode(|s|, 4);
    DecodeEncode(|s|, 4);
    assert r.data[off + 4..off + 4 + |s|] == s;
    assert r.data[..off] == g.data[..off];
  }

  lemma AppendStrValid(g: Gen, s: seq<byte>)
    requires Valid(g) && NoNul(s) && g.dataLength + 4 + |s| <= MaxData && |g.strs| < MaxStrings
    ensures Valid(AppendStr(g, s))
    ensures StrEntry(AppendStr(g, s).data, AppendStr(g, s).dataLength, g.dataLength)
    ensures Pooled(AppendStr(g, s).data, g.dataLength) == s
  {
    var r := AppendStr(g, s);
    AppendStrReads(g, s);
    assert StrEntry(r.data, r.dataLength, g.dataLength);
    assert r.strs[..|g.strs|] == g.strs;
    StillEntries(g, r);
  }

  /** The STR case, corrected: reuse an entry only when it holds exactly the
      literal, otherwise append one; then emit PUSH_CSTR with its offset. */
  function PushStr(g: Gen, s: seq<byte>): (r: Gen)
    requires Valid(g) && StrRoom(g, s)
    ensures Valid(r)
  {
    var found := FindStr(g, s, 0);
    if found.Some? then EmitPush(g, PushCStrOp, found.value)
    else
      AppendStrValid(g, s);
      EmitPush(AppendStr(g, s), PushCStrOp, g.dataLength)
  }

  /** Every string literal emits PUSH_CSTR and the offset of an entry
      holding exactly the literal; a repeated literal leaves the pool as it
      was, a new one grows the data by 4 plus its length. */
  lemma PushStrRoundTrip(g: Gen, s: seq<byte>)
    requires Valid(g) && StrRoom(g, s)
    ensures var r := PushStr(g, s);
      var off := ReadUnsigned(r.code, g.codeLength + 1, W32);
      && r.codeLength == g.codeLength + 5
      && r.code[..g.codeLength] == g.code[..g.codeLength]
      && r.code[g.codeLength] == PushCStrOp
      && StrEntry(r.data, r.dataLength, off) && Pooled(r.data, off) == s
      && (FindStr(g, s, 0).Some? ==> r.strs == g.strs && r.data == g.data && r.dataLength == g.dataLength)
      && (FindStr(g, s, 0).None? ==> r.strs == g.strs + [g.dataLength] && r.dataLength == g.dataLength + 4 + |s|)
  {
    if FindStr(g, s, 0).None? {
      AppendStrValid(g, s);
    }
  }

  /** The STR case as written, with the prefix test. */
  function PushStrAsWritten(g: Gen, s: seq<byte>): (r: Gen)
    requires Valid(g) && NoNul(s) && g.codeLength + 5 <= MaxCode
    requires FindStrAsWritten(g, s, 0).None? ==> g.dataLength + 4 + |s| <= MaxData && |g.strs| < MaxStrings
    ensures Valid(r)
  {
    var found := FindStrAsWritten(g, s, 0);
    if found.Some? then EmitPush(g, PushCStrOp, found.value)
    else
      AppendStrValid(g, s);
      EmitPush(AppendStr(g, s), PushCStrOp, g.dataLength)
  }

  /** Once "" is pooled, the test as written makes every later literal
      reuse it: "ab" is compiled to push the empty string. */
  lemma EmptyStringCapturesAll(data: seq<byte>, code: seq<byte>)
    requires |data| == MaxData && |code| == MaxCode
    ensures var g := PushStrAsWritten(Init(data, code), []);
      var r := PushStrAsWritten(g, [97, 98]);
      var off := ReadUnsigned(r.code, g.codeLength + 1, W32);
      && g.strs == [0]
      && r.strs == [0] && off == 0
      && StrEntry(r.data, r.dataLength, off) && Pooled(r.data, off) == []
  {
    var g0 := Init(data, code);
    AppendStrValid(g0, []);
    var g := PushStrAsWritten(g0, []);
    assert g.data == AppendStr(g0, []).data && g.dataLength == 4;
    assert StrEntry(g.data, g.dataLength, 0) && Pooled(g.data, 0) == [];
    assert FindStrAsWritten(g, [97, 98], 0) == Some(0);
  }
}
