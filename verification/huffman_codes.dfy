/** Code generation and encoding over a finished Huffman arena
    (Q2_HuffmanFixedArray.cpp): `buildCodesRec` writes each leaf's path
    ('0' for left, '1' for right) into a 256-entry code table, and
    `encodeString` concatenates the codes of the input bytes. */
module HuffmanCodes {
  import opened Common
  import opened Huffman

  /** The code table: one bit string per byte value. */
  type Table = t: seq<string> | |t| == 256 witness seq(256, _ => "")

  /** The cleared table. */
  function EmptyTable(): (t: Table)
    ensures forall c | 0 <= c < 256 :: t[c] == []
  {
    seq(256, _ => "")
  }

  predicate IsBits(s: string)
  {
    forall i | 0 <= i < |s| :: s[i] == '0' || s[i] == '1'
  }

  /** Byte `c` has a non-empty bit code. */
  predicate HasCode(t: Table, c: int)
  {
    0 <= c < 256 && t[c] != [] && IsBits(t[c])
  }

  /** No non-empty code of one byte starts another byte's code. */
  predicate PrefixFree(t: Table)
  {
    forall c, d | 0 <= c < 256 && 0 <= d < 256 && c != d && t[c] != [] && t[d] != [] :: !(t[c] <= t[d])
  }

  /** `buildCodesRec`: a leaf gets the path to it ("0" when the root itself
      is the leaf), a parent passes `path + "0"` to its left and
      `path + "1"` to its right child. Entries it changes hold a non-empty
      code extending `path`, in bits when `path` is. */
  function BuildCodesRec(a: seq<HNode>, idx: int, path: string, table: seq<string>): (r: seq<string>)
    requires Shaped(a) && idx < |a| && |table| == 256
    ensures |r| == 256
    ensures forall c | 0 <= c < 256 && r[c] != table[c] :: r[c] != [] && path <= r[c]
    ensures IsBits(path) ==> forall c | 0 <= c < 256 && r[c] != table[c] :: IsBits(r[c])
    decreases if idx < 0 then 0 else idx + 1
  {
    if idx < 0 then table
    else if IsLeaf(a[idx]) then table[a[idx].ch := if path == [] then "0" else path]
    else
      var t1 := if a[idx].left != -1 then BuildCodesRec(a, a[idx].left, path + "0", table) else table;
      if a[idx].right != -1 then BuildCodesRec(a, a[idx].right, path + "1", t1) else t1
  }

  /** `generateCodes`: clear the table, then walk from the root. */
  function GenerateCodes(a: seq<HNode>, root: int): (r: Table)
    requires Shaped(a) && root < |a|
    ensures forall c | 0 <= c < 256 && r[c] != [] :: IsBits(r[c])
  {
    BuildCodesRec(a, root, "", EmptyTable())
  }

  /** `encodeString`: the codes of the bytes of `s`, one after another. */
  function Encode(t: Table, s: seq<Byte>): string
  {
    if s == [] then [] else t[s[0]] + Encode(t, s[1..])
  }

  /** Encoding with bit codes gives a bit string. */
  lemma {:induction false} EncodeBits(t: Table, s: seq<Byte>)
    requires forall i | 0 <= i < |s| :: IsBits(t[s[i]])
    ensures IsBits(Encode(t, s))
  {
    if s != [] {
      EncodeBits(t, s[1..]);
      assert forall i | 0 <= i < |s[1..]| :: s[1..][i] == s[i + 1];
    }
  }

  lemma {:induction false} EncodeConcat(t: Table, s: seq<Byte>, u: seq<Byte>)
    ensures Encode(t, s + u) == Encode(t, s) + Encode(t, u)
  {
    if s == [] {
      assert s + u == u;
    } else {
      EncodeConcat(t, s[1..], u);
      assert (s + u)[0] == s[0];
      assert (s + u)[1..] == s[1..] + u;
    }
  }

  // ---------------------------------------------------------------------
  // Decoding: the inverse of `encodeString` for a prefix-free table

  /** The first byte from `c` on whose non-empty code starts `bits`. */
  function MatchFrom(t: Table, bits: string, c: int): (r: Option<Byte>)
    requires 0 <= c <= 256
    ensures r.Some? ==> c <= r.value && t[r.value] != [] && t[r.value] <= bits
    ensures r.None? ==> forall d | c <= d < 256 :: !(t[d] != [] && t[d] <= bits)
    decreases 256 - c
  {
    if c == 256 then None
    else if t[c] != [] && t[c] <= bits then Some(c)
    else MatchFrom(t, bits, c + 1)
  }

  /** Reads a bit string back into bytes by repeatedly matching a code at
      the front; `None` when some remainder starts with no code. */
  function Decode(t: Table, bits: string): Option<seq<Byte>>
    decreases |bits|
  {
    if bits == [] then Some([])
    else match MatchFrom(t, bits, 0)
      case None => None
      case Some(c) =>
        match Decode(t, bits[|t[c]|..])
        case None => None
        case Some(rest) => Some([c] + rest)
  }

  /** Two prefixes of one string are prefixes of each other. */
  lemma PrefixesComparable(p: string, q: string, w: string)
    requires p <= w && q <= w
    ensures p <= q || q <= p
  {
    if |p| <= |q| {
      assert p == w[..|p|] && q == w[..|q|];
      assert q[..|p|] == p;
    } else {
      assert p == w[..|p|] && q == w[..|q|];
      assert p[..|q|] == q;
    }
  }

  /** With a prefix-free table in which every byte of `s` has a code,
      decoding the encoding gives back `s`. */
  lemma {:induction false} DecodeEncode(t: Table, s: seq<Byte>)
    requires PrefixFree(t)
    requires forall i | 0 <= i < |s| :: t[s[i]] != []
    ensures Decode(t, Encode(t, s)) == Some(s)
  {
    if s != [] {
      var bits := Encode(t, s);
      var rest := Encode(t, s[1..]);
      assert bits == t[s[0]] + rest;
      assert t[s[0]] != [] && t[s[0]] <= bits;
      var m := MatchFrom(t, bits, 0);
      assert m.Some?;
      var c := m.value;
      PrefixesComparable(t[c], t[s[0]], bits);
      assert c == s[0];
      assert bits[|t[c]|..] == rest;
      DecodeEncode(t, s[1..]);
      assert [c] + s[1..] == s;
    }
  }

  // ---------------------------------------------------------------------
  // The codes of a finished arena

  /** The leaves below `idx`, left to right, each with the code
      `buildCodesRec` gives it when it reaches `idx` with `path`. */
  function LeafCodes(a: seq<HNode>, idx: int, path: string): (r: seq<(int, string)>)
    requires Shaped(a) && 0 <= idx < |a|
    ensures forall i | 0 <= i < |r| :: r[i].0 in LeafIdx(a, idx)
    ensures forall i | 0 <= i < |r| :: r[i].1 != [] && path <= r[i].1
    ensures forall i | 0 <= i < |r| :: IsBits(path) ==> IsBits(r[i].1)
    decreases idx
  {
    if IsLeaf(a[idx]) then [(idx, if path == [] then "0" else path)]
    else
      var lc := LeafCodes(a, a[idx].left, path + "0");
      var rc := LeafCodes(a, a[idx].right, path + "1");
      assert forall i | 0 <= i < |lc| :: (lc + rc)[i] == lc[i];
      assert forall i | |lc| <= i < |lc| + |rc| :: (lc + rc)[i] == rc[i - |lc|];
      assert forall i | 0 <= i < |lc| :: path <= lc[i].1;
      assert forall i | 0 <= i < |rc| :: path <= rc[i].1;
      lc + rc
  }

  /** Writing the codes `ps` into `table` in order. */
  function Apply(a: seq<HNode>, table: Table, ps: seq<(int, string)>): Table
    requires forall i | 0 <= i < |ps| :: 0 <= ps[i].0 < |a|
    decreases |ps|
  {
    if ps == [] then table else Apply(a, table[a[ps[0].0].ch := ps[0].1], ps[1..])
  }

  lemma {:induction false} ApplyConcat(a: seq<HNode>, table: Table, p: seq<(int, string)>, q: seq<(int, string)>)
    requires forall i | 0 <= i < |p| :: 0 <= p[i].0 < |a|
    requires forall i | 0 <= i < |q| :: 0 <= q[i].0 < |a|
    ensures Apply(a, table, p + q) == Apply(a, Apply(a, table, p), q)
    decreases |p|
  {
    if p == [] {
      assert p + q == q;
    } else {
      var t1: Table := table[a[p[0].0].ch := p[0].1];
      assert (p + q)[0] == p[0];
      assert (p + q)[1..] == p[1..] + q;
      ApplyConcat(a, t1, p[1..], q);
      assert Apply(a, table, p + q) == Apply(a, t1, p[1..] + q);
      assert Apply(a, table, p) == Apply(a, t1, p[1..]);
    }
  }

  /** `buildCodesRec` writes exactly the leaf codes, left to right. */
  lemma {:induction false} BuildCodesRecApplies(a: seq<HNode>, idx: int, path: string, table: Table)
    requires Shaped(a) && 0 <= idx < |a|
    ensures BuildCodesRec(a, idx, path, table) == Apply(a, table, LeafCodes(a, idx, path))
    decreases idx
  {
    if IsLeaf(a[idx]) {
      var ps := LeafCodes(a, idx, path);
      assert ps[1..] == [];
    } else {
      var l, r := a[idx].left, a[idx].right;
      BuildCodesRecApplies(a, l, path + "0", table);
      var t1 := BuildCodesRec(a, l, path + "0", table);
      BuildCodesRecApplies(a, r, path + "1", t1);
      ApplyConcat(a, table, LeafCodes(a, l, path + "0"), LeafCodes(a, r, path + "1"));
    }
  }

  /** Leaf codes below one slot are never prefixes of each other: codes in
      the left subtree continue with '0' where those in the right continue
      with '1'. */
  lemma {:induction false} LeafCodesPrefixFree(a: seq<HNode>, idx: int, path: string)
    requires Shaped(a) && 0 <= idx < |a|
    ensures forall i, j | 0 <= i < |LeafCodes(a, idx, path)| && 0 <= j < |LeafCodes(a, idx, path)| && i != j ::
              !(LeafCodes(a, idx, path)[i].1 <= LeafCodes(a, idx, path)[j].1)
    decreases idx
  {
    if !IsLeaf(a[idx]) {
      var l, rt := a[idx].left, a[idx].right;
      var p0, p1 := path + "0", path + "1";
      LeafCodesPrefixFree(a, l, p0);
      LeafCodesPrefixFree(a, rt, p1);
      var lc, rc := LeafCodes(a, l, p0), LeafCodes(a, rt, p1);
      var r := lc + rc;
      forall i, j | 0 <= i < |r| && 0 <= j < |r| && i != j
        ensures !(r[i].1 <= r[j].1)
      {
        if i < |lc| && j >= |lc| {
          Diverge(r[i].1, r[j].1, path, '0', '1');
        } else if i >= |lc| && j < |lc| {
          Diverge(r[i].1, r[j].1, path, '1', '0');
        } else if i < |lc| {
          assert r[i] == lc[i] && r[j] == lc[j];
        } else {
          assert r[i] == rc[i - |lc|] && r[j] == rc[j - |lc|];
        }
      }
    }
  }

  /** Strings that extend `path` by different next bits are not prefixes of
      each other. */
  lemma Diverge(u: string, v: string, path: string, x: char, y: char)
    requires x != y && path + [x] <= u && path + [y] <= v
    ensures !(u <= v)
  {
    assert u[|path|] == x && v[|path|] == y;
  }

  /** With disjoint subtrees under every parent, the leaf codes below a slot
      name distinct leaves. */
  lemma {:induction false} LeafCodesDistinct(a: seq<HNode>, idx: int, path: string)
    requires Shaped(a) && Disjoint(a) && 0 <= idx < |a|
    ensures forall i, j | 0 <= i < j < |LeafCodes(a, idx, path)| ::
              LeafCodes(a, idx, path)[i].0 != LeafCodes(a, idx, path)[j].0
    decreases idx
  {
    if !IsLeaf(a[idx]) {
      var l, rt := a[idx].left, a[idx].right;
      var p0, p1 := path + "0", path + "1";
      LeafCodesDistinct(a, l, p0);
      LeafCodesDistinct(a, rt, p1);
      var lc, rc := LeafCodes(a, l, p0), LeafCodes(a, rt, p1);
      var r := lc + rc;
      assert r == LeafCodes(a, idx, path);
      assert LeafIdx(a, l) !! LeafIdx(a, rt);
      forall i, j | 0 <= i < j < |r|
        ensures r[i].0 != r[j].0
      {
        if j < |lc| {
          assert r[i] == lc[i] && r[j] == lc[j];
        } else if i >= |lc| {
          assert r[i] == rc[i - |lc|] && r[j] == rc[j - |lc|];
        } else {
          assert r[i] == lc[i] && r[j] == rc[j - |lc|];
          assert r[i].0 in LeafIdx(a, l) && r[j].0 in LeafIdx(a, rt);
        }
      }
    }
  }

  /** Every leaf below a slot has a code among the slot's leaf codes. */
  lemma {:induction false} LeafCodesCover(a: seq<HNode>, idx: int, path: string, k: int)
    requires Shaped(a) && 0 <= idx < |a| && k in LeafIdx(a, idx)
    ensures exists i | 0 <= i < |LeafCodes(a, idx, path)| :: LeafCodes(a, idx, path)[i].0 == k
    decreases idx
  {
    var r := LeafCodes(a, idx, path);
    if IsLeaf(a[idx]) {
      assert r[0].0 == idx;
    } else {
      var l, rt := a[idx].left, a[idx].right;
      var p0, p1 := path + "0", path + "1";
      var lc, rc := LeafCodes(a, l, p0), LeafCodes(a, rt, p1);
      assert r == lc + rc;
      if k in LeafIdx(a, l) {
        LeafCodesCover(a, l, p0, k);
        var i :| 0 <= i < |lc| && lc[i].0 == k;
        assert r[i] == lc[i];
      } else {
        LeafCodesCover(a, rt, p1, k);
        var i :| 0 <= i < |rc| && rc[i].0 == k;
        assert r[|lc| + i] == rc[i];
      }
    }
  }

  /** A byte no written code belongs to keeps its old entry. */
  lemma {:induction false} ApplyAbsent(a: seq<HNode>, table: Table, ps: seq<(int, string)>, c: int)
    requires forall i | 0 <= i < |ps| :: 0 <= ps[i].0 < |a|
    requires 0 <= c < 256 && forall i | 0 <= i < |ps| :: a[ps[i].0].ch != c
    ensures Apply(a, table, ps)[c] == table[c]
    decreases |ps|
  {
    if ps != [] {
      ApplyAbsent(a, table[a[ps[0].0].ch := ps[0].1], ps[1..], c);
    }
  }

  /** When the written codes belong to distinct bytes, each byte ends up with
      its own code. */
  lemma {:induction false} ApplyPresent(a: seq<HNode>, table: Table, ps: seq<(int, string)>, i: int)
    requires forall j | 0 <= j < |ps| :: 0 <= ps[j].0 < |a|
    requires forall j, k | 0 <= j < k < |ps| :: a[ps[j].0].ch != a[ps[k].0].ch
    requires 0 <= i < |ps|
    ensures Apply(a, table, ps)[a[ps[i].0].ch] == ps[i].1
    decreases |ps|
  {
    var t1 := table[a[ps[0].0].ch := ps[0].1];
    if i == 0 {
      ApplyAbsent(a, t1, ps[1..], a[ps[0].0].ch);
    } else {
      ApplyPresent(a, t1, ps[1..], i - 1);
    }
  }

  /** Some entry of `ps` names leaf `k`. */
  ghost predicate Names(ps: seq<(int, string)>, k: int)
  {
    exists i | 0 <= i < |ps| :: ps[i].0 == k
  }

  /** `ps` lists the codes of the leaves of a finished arena over `init`:
      it names each of the leaves, the leaves it names carry distinct bytes,
      and its codes are non-empty bit strings, none a prefix of another. */
  ghost predicate CodeList(a: seq<HNode>, init: seq<HNode>, ps: seq<(int, string)>)
  {
    && |init| <= |a|
    && (forall i | 0 <= i < |ps| :: 0 <= ps[i].0 < |init| && a[ps[i].0].ch == init[ps[i].0].ch)
    && (forall j, k | 0 <= j < k < |ps| :: a[ps[j].0].ch != a[ps[k].0].ch)
    && (forall k | 0 <= k < |init| :: Names(ps, k))
    && (forall i | 0 <= i < |ps| :: ps[i].1 != [] && IsBits(ps[i].1))
    && (forall i, j | 0 <= i < |ps| && 0 <= j < |ps| && i != j :: !(ps[i].1 <= ps[j].1))
  }

  /** The leaf codes from the root of a finished arena name each of the
      leaves exactly once, so they belong to distinct bytes. */
  lemma RootCodes(a: seq<HNode>, init: seq<HNode>, root: int)
    requires Initial(init) && Built(a, init, root)
    ensures CodeList(a, init, LeafCodes(a, root, ""))
  {
    var L := |init|;
    var ps := LeafCodes(a, root, "");
    WfDisjoint(a, L);
    LeafCodesDistinct(a, root, "");
    LeafCodesPrefixFree(a, root, "");
    forall k | 0 <= k < L
      ensures Names(ps, k)
    {
      assert k in LeafIdx(a, root);
      LeafCodesCover(a, root, "", k);
    }
    forall j, k | 0 <= j < k < |ps|
      ensures a[ps[j].0].ch != a[ps[k].0].ch
    {
      var x, y := ps[j].0, ps[k].0;
      if x < y {
        assert init[x].ch < init[y].ch;
      } else {
        assert init[y].ch < init[x].ch;
      }
    }
  }

  /** Every leaf's byte gets its non-empty bit code. */
  lemma TablePresent(a: seq<HNode>, init: seq<HNode>, ps: seq<(int, string)>, k: int)
    requires CodeList(a, init, ps) && 0 <= k < |init|
    ensures HasCode(Apply(a, EmptyTable(), ps), init[k].ch)
  {
    assert Names(ps, k);
    var i :| 0 <= i < |ps| && ps[i].0 == k;
    ApplyPresent(a, EmptyTable(), ps, i);
  }

  /** A byte without a leaf keeps the empty code. */
  lemma TableAbsent(a: seq<HNode>, init: seq<HNode>, ps: seq<(int, string)>, c: int)
    requires CodeList(a, init, ps) && 0 <= c < 256
    requires forall k | 0 <= k < |init| :: init[k].ch != c
    ensures Apply(a, EmptyTable(), ps)[c] == []
  {
    ApplyAbsent(a, EmptyTable(), ps, c);
  }

  /** The codes written from a code list are prefix-free. */
  lemma TablePrefixFree(a: seq<HNode>, init: seq<HNode>, ps: seq<(int, string)>)
    requires CodeList(a, init, ps)
    ensures PrefixFree(Apply(a, EmptyTable(), ps))
  {
    var t := Apply(a, EmptyTable(), ps);
    forall c, d | 0 <= c < 256 && 0 <= d < 256 && c != d && t[c] != [] && t[d] != []
      ensures !(t[c] <= t[d])
    {
      var i := Owner(a, ps, c);
      var j := Owner(a, ps, d);
      ApplyPresent(a, EmptyTable(), ps, i);
      ApplyPresent(a, EmptyTable(), ps, j);
    }
  }

  /** The codes of a finished arena: every leaf's byte gets a non-empty bit
      code, a lone leaf gets "0", a byte without a leaf keeps the empty
      code, and no code is a prefix of another. */
  lemma GenerateCodesCorrect(a: seq<HNode>, init: seq<HNode>, root: int)
    requires Initial(init) && Built(a, init, root)
    ensures forall k | 0 <= k < |init| :: HasCode(GenerateCodes(a, root), init[k].ch)
    ensures |init| == 1 ==> GenerateCodes(a, root)[init[0].ch] == "0"
    ensures forall c | 0 <= c < 256 && (forall k | 0 <= k < |init| :: init[k].ch != c) ::
              GenerateCodes(a, root)[c] == []
    ensures PrefixFree(GenerateCodes(a, root))
  {
    var ps := LeafCodes(a, root, "");
    BuildCodesRecApplies(a, root, "", EmptyTable());
    RootCodes(a, init, root);
    forall k | 0 <= k < |init|
      ensures HasCode(GenerateCodes(a, root), init[k].ch)
    {
      TablePresent(a, init, ps, k);
    }
    forall c | 0 <= c < 256 && (forall k | 0 <= k < |init| :: init[k].ch != c)
      ensures GenerateCodes(a, root)[c] == []
    {
      TableAbsent(a, init, ps, c);
    }
    TablePrefixFree(a, init, ps);
    if |init| == 1 {
      assert root == 0 && IsLeaf(a[0]);
    }
  }

  /** The position of leaf `k` among the leaf codes. */
  function IndexOf(ps: seq<(int, string)>, k: int): (i: int)
    requires exists i | 0 <= i < |ps| :: ps[i].0 == k
    ensures 0 <= i < |ps| && ps[i].0 == k
  {
    if ps[0].0 == k then 0 else 1 + IndexOf(ps[1..], k)
  }

  /** A byte with a non-empty entry after writing the codes `ps` into the
      cleared table owns one of them. */
  lemma Owner(a: seq<HNode>, ps: seq<(int, string)>, c: int) returns (i: int)
    requires forall j | 0 <= j < |ps| :: 0 <= ps[j].0 < |a|
    requires 0 <= c < 256 && Apply(a, EmptyTable(), ps)[c] != []
    ensures 0 <= i < |ps| && a[ps[i].0].ch == c
  {
    if forall j | 0 <= j < |ps| :: a[ps[j].0].ch != c {
      ApplyAbsent(a, EmptyTable(), ps, c);
      assert false;
    }
    i :| 0 <= i < |ps| && a[ps[i].0].ch == c;
  }

  // ---------------------------------------------------------------------
  // The driver's pipeline

  /** A non-empty input of a single repeated byte has a single leaf. */
  lemma LoneByte(s: seq<Byte>)
    requires |s| > 0 && forall i | 0 <= i < |s| :: s[i] == s[0]
    ensures |BuildInitial(s)| == 1 && BuildInitial(s)[0].ch == s[0]
  {
    var init := BuildInitial(s);
    BuildInitialPresent(s);
    forall k | 0 <= k < |init|
      ensures init[k].ch == s[0]
    {
      OccursSomewhere(s, init[k].ch);
    }
  }

  /** Every byte of the input has a non-empty bit code. */
  lemma PipelinePresent(s: seq<Byte>, a: seq<HNode>, root: int, c: Byte)
    requires Built(a, BuildInitial(s), root) && Occurrences(s, c) > 0
    ensures HasCode(GenerateCodes(a, root), c)
  {
    var init := BuildInitial(s);
    GenerateCodesCorrect(a, init, root);
    BuildInitialPresent(s);
    var k :| 0 <= k < |init| && init[k].ch == c;
  }

  /** A byte that does not occur in a non-empty input keeps the empty code. */
  lemma PipelineAbsent(s: seq<Byte>, a: seq<HNode>, root: int, c: Byte)
    requires Built(a, BuildInitial(s), root) && |s| > 0 && Occurrences(s, c) == 0
    ensures GenerateCodes(a, root)[c] == []
  {
    var init := BuildInitial(s);
    GenerateCodesCorrect(a, init, root);
    BuildInitialPresent(s);
    assert forall k | 0 <= k < |init| :: init[k].ch != c;
  }

  /** The empty input codes only its dummy byte 0, as "0". */
  lemma PipelineEmpty(s: seq<Byte>, a: seq<HNode>, root: int)
    requires Built(a, BuildInitial(s), root) && |s| == 0
    ensures GenerateCodes(a, root)[0] == "0"
    ensures forall c: Byte | c != 0 :: GenerateCodes(a, root)[c] == []
  {
    var init := BuildInitial(s);
    GenerateCodesCorrect(a, init, root);
    BuildInitialEmpty(s);
  }

  /** A lone repeated byte gets the code "0". */
  lemma PipelineLone(s: seq<Byte>, a: seq<HNode>, root: int)
    requires Built(a, BuildInitial(s), root)
    requires |s| > 0 && forall i | 0 <= i < |s| :: s[i] == s[0]
    ensures GenerateCodes(a, root)[s[0]] == "0"
  {
    GenerateCodesCorrect(a, BuildInitial(s), root);
    LoneByte(s);
  }

  /** The driver's pipeline without its console I/O: the leaves of the
      input's bytes, the tree, the code table and the encoded bit string.
      The table is prefix-free and gives every input byte a non-empty bit
      code, so the output is a bit string that decodes back to the input. */
  method Compress(s: seq<Byte>) returns (table: Table, out: string)
    ensures forall c: Byte | Occurrences(s, c) > 0 :: HasCode(table, c)
    ensures |s| > 0 ==> forall c: Byte | Occurrences(s, c) == 0 :: table[c] == []
    ensures |s| == 0 ==> table[0] == "0" && forall c: Byte | c != 0 :: table[c] == []
    ensures |s| > 0 && (forall i | 0 <= i < |s| :: s[i] == s[0]) ==> table[s[0]] == "0"
    ensures PrefixFree(table)
    ensures out == Encode(table, s) && IsBits(out)
    ensures Decode(table, out) == Some(s)
  {
    var init := BuildInitial(s);
    var root, a := BuildHuffmanTree(init);
    table := GenerateCodes(a, root);
    out := Encode(table, s);
    forall c: Byte | Occurrences(s, c) > 0
      ensures HasCode(table, c)
    {
      PipelinePresent(s, a, root, c);
    }
    if |s| == 0 {
      PipelineEmpty(s, a, root);
    } else {
      forall c: Byte | Occurrences(s, c) == 0
        ensures table[c] == []
      {
        PipelineAbsent(s, a, root, c);
      }
      if forall i | 0 <= i < |s| :: s[i] == s[0] {
        PipelineLone(s, a, root);
      }
    }
    GenerateCodesCorrect(a, init, root);
    forall i | 0 <= i < |s|
      ensures HasCode(table, s[i])
    {
      OccursAt(s, i);
    }
    EncodeBits(table, s);
    DecodeEncode(table, s);
  }
}
