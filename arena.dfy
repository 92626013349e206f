/** The name arena of the visit tree: `visiting` copies each visited
    object's name, with its terminating NUL, to the end of one character
    buffer, and `get_sizes` sizes that buffer beforehand
    (tools/vdb-validate/vdb-validate.c:280-282, 460-489). */
module NameArena {
  import opened RcCodes

  /** The arena after copying `names` in order: each name followed by NUL. */
  function Arena(names: seq<string>): seq<char> {
    if names == [] then []
    else Arena(names[..|names| - 1]) + names[|names| - 1] + ['\0']
  }

  /** What `get_sizes_cb` accumulates in `size`: `strlen(name) + 1` per name. */
  function ArenaSize(names: seq<string>): nat {
    if names == [] then 0 else ArenaSize(names[..|names| - 1]) + |names[|names| - 1]| + 1
  }

  /** The size measured by the pre-pass is exactly the room the copies take. */
  lemma {:induction false} ArenaSizeIsLength(names: seq<string>)
    ensures |Arena(names)| == ArenaSize(names)
  {
    if names != [] {
      ArenaSizeIsLength(names[..|names| - 1]);
    }
  }

  /** Copying a prefix of the names fills a prefix of the arena. */
  lemma {:induction false} ArenaPrefix(names: seq<string>, j: nat)
    requires j <= |names|
    ensures |Arena(names[..j])| <= |Arena(names)|
    ensures Arena(names[..j]) == Arena(names)[..|Arena(names[..j])|]
    decreases |names| - j
  {
    if j < |names| {
      var v := names[..j + 1];
      ArenaPrefix(names, j + 1);
      assert v[..|v| - 1] == names[..j];
      var a, b := Arena(names[..j]), Arena(v);
      assert b == a + names[j] + ['\0'];
      assert b[..|a|] == a;
      assert Arena(names)[..|a|] == b[..|a|];
    } else {
      assert names[..j] == names;
    }
  }

  /** The name copied `j`-th sits at the offset the earlier names end at,
      followed by its NUL, inside the arena. */
  lemma NameInArena(names: seq<string>, j: nat)
    requires j < |names|
    ensures var off := |Arena(names[..j])|;
            && off + |names[j]| + 1 <= |Arena(names[..j + 1])|
            && off + |names[j]| < |Arena(names)|
            && Arena(names)[off..off + |names[j]|] == names[j]
            && Arena(names)[off + |names[j]|] == '\0'
  {
    var v := names[..j + 1];
    ArenaPrefix(names, j + 1);
    assert v[..|v| - 1] == names[..j];
    var a, b := Arena(names[..j]), Arena(v);
    assert b == a + names[j] + ['\0'];
    assert b[|a|..|a| + |names[j]|] == names[j];
  }

  /** The C string at `off` of `buf`: its characters up to the first NUL (or
      to the end of the buffer). */
  function CString(buf: seq<char>, off: nat): (s: string)
    requires off <= |buf|
    ensures '\0' !in s && off + |s| <= |buf|
    ensures forall k :: 0 <= k < |s| ==> s[k] == buf[off + k]
    decreases |buf| - off
  {
    if off >= |buf| || buf[off] == '\0' then [] else [buf[off]] + CString(buf, off + 1)
  }

  /** A NUL-free string copied to `off` and terminated is read back whole. */
  lemma {:induction false} CStringReadsCopy(buf: seq<char>, off: nat, w: string)
    requires '\0' !in w && off + |w| < |buf|
    requires buf[off..off + |w|] == w && buf[off + |w|] == '\0'
    ensures CString(buf, off) == w
    decreases |w|
  {
    if w != [] {
      assert buf[off] == w[0];
      assert buf[off + 1..off + 1 + |w[1..]|] == w[1..];
      CStringReadsCopy(buf, off + 1, w[1..]);
    }
  }

  /** Every name copied to the arena is read back from its offset. */
  lemma ArenaNamesReadBack(names: seq<string>, j: nat)
    requires j < |names| && '\0' !in names[j]
    ensures |Arena(names[..j])| < |Arena(names)|
    ensures CString(Arena(names), |Arena(names[..j])|) == names[j]
  {
    NameInArena(names, j);
    CStringReadsCopy(Arena(names), |Arena(names[..j])|, names[j]);
  }

  /** `get_sizes`: walks the objects and counts them and the room their names
      take; a failed walk reports no objects and no room. The walk itself is
      a directory visit, given here as the names it lists and its outcome. */
  method GetSizes(listed: seq<string>, walk: Rc) returns (rc: Rc, nobj: nat, namesz: nat)
    ensures rc == walk
    ensures walk == Ok ==> nobj == |listed| && namesz == ArenaSize(listed)
    ensures walk != Ok ==> nobj == 0 && namesz == 0
  {
    var count, size := 0, 0;
    var i := 0;
    while i < |listed|
      invariant i <= |listed|
      invariant count == i && size == ArenaSize(listed[..i])
    {
      assert listed[..i + 1][..i] == listed[..i];
      count, size := count + 1, size + |listed[i]| + 1;
      i := i + 1;
    }
    assert listed[..i] == listed;
    rc := walk;
    if rc != Ok {
      count, size := 0, 0;
    }
    nobj, namesz := count, size;
  }
}
