/** Splitting the schema attribute `name#version` in `get_schema_info`
    (tools/vdb-validate/vdb-validate.c:684-708), and the check mode and level
    (lines 341, 1545-1548). */
module SchemaAndMode {
  import opened NameArena

  /** The schema name and version held in the attribute `attr`: split at
      its last '#', or the whole attribute and no version. */
  function SchemaParts(attr: string): (p: (string, string))
    ensures '#' !in attr ==> p == (attr, "")
    ensures '#' in attr ==> p.0 + "#" + p.1 == attr && '#' !in p.1
    decreases |attr|
  {
    if '#' !in attr then (attr, "")
    else
      var last := attr[|attr| - 1];
      assert attr == attr[..|attr| - 1] + [last];
      if last == '#' then (attr[..|attr| - 1], "")
      else
        var (n, v) := SchemaParts(attr[..|attr| - 1]);
        (n, v + [last])
  }

  /** The split happens at the last '#'. */
  lemma SchemaPartsAt(attr: string, i: nat)
    requires i < |attr| && attr[i] == '#' && '#' !in attr[i + 1..]
    ensures SchemaParts(attr) == (attr[..i], attr[i + 1..])
  {
    var (n, v) := SchemaParts(attr);
    var j := |n|;
    assert attr[j] == '#' && attr[j + 1..] == v;
    assert attr[..i] == n && attr[i + 1..] == v;
  }

  /** The split in place: terminates the attribute read into `buffer`,
      then scans back from its end for '#', which it overwrites with NUL.
      The name is the C string at the start of the buffer, the version the
      one at `versAt`. */
  method SplitSchemaName(buffer: array<char>, sz: nat) returns (versAt: nat)
    requires sz < buffer.Length && '\0' !in buffer[..sz]
    modifies buffer
    ensures versAt <= sz
    ensures CString(buffer[..], 0) == SchemaParts(old(buffer[..sz])).0
    ensures CString(buffer[..], versAt) == SchemaParts(old(buffer[..sz])).1
  {
    ghost var attr := buffer[..sz];
    buffer[sz] := '\0';
    versAt := sz;
    var i := sz;
    while i > 0
      invariant i <= sz && buffer[..sz] == attr && buffer[sz] == '\0'
      invariant '#' !in attr[i..]
    {
      i := i - 1;
      if buffer[i] == '#' {
        buffer[i] := '\0';
        versAt := i + 1;
        SchemaPartsAt(attr, i);
        assert buffer[..][..i] == attr[..i];
        CStringReadsCopy(buffer[..], 0, attr[..i]);
        assert buffer[..][i + 1..sz] == attr[i + 1..];
        CStringReadsCopy(buffer[..], i + 1, attr[i + 1..]);
        return;
      }
      assert attr[i..] == [attr[i]] + attr[i + 1..];
    }
    assert buffer[..][..sz] == attr;
    CStringReadsCopy(buffer[..], 0, attr);
    assert buffer[..][sz..sz] == [];
    CStringReadsCopy(buffer[..], sz, []);
  }

  /** The check mode `dbcc` builds from the options: MD5 (1), blob CRC (2),
      index (4). */
  function ModeOf(md5: bool, blobCrc: bool, index: bool): (mode: bv32)
    ensures mode & 0xFFFF_FFF8 == 0
    ensures (mode & 1 != 0) == md5 && (mode & 2 != 0) == blobCrc && (mode & 4 != 0) == index
  {
    (if md5 then 1 else 0) | (if blobCrc then 2 else 0) | (if index then 4 else 0)
  }

  /** The level `kdbcc` asks the consistency check for. */
  function LevelOf(mode: bv32): (level: nat)
    ensures level <= 3
  {
    if mode & 4 != 0 then 3 else if mode & 2 != 0 then 1 else 0
  }

  /** The index check asks for the deepest level, blob CRCs alone for level
      1, and the MD5 option never changes the level. */
  lemma LevelOfOptions(md5: bool, blobCrc: bool, index: bool)
    ensures LevelOf(ModeOf(md5, blobCrc, index)) == if index then 3 else if blobCrc then 1 else 0
    ensures LevelOf(ModeOf(md5, blobCrc, index)) == LevelOf(ModeOf(!md5, blobCrc, index))
  {
  }
}
