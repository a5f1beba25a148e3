/**
 * The current directory and the path stack cd and pwd keep: the stack
 * holds the names of the directories entered below the root, the root
 * itself being the empty stack.
 */
module Navigation {
  import opened Bytes
  import opened Errors
  import opened Directories
  import opened DirEdits

  const Slash: byte := 47

  /** Where the shell stands: the current directory's inode and the names leading to it. */
  datatype Position = Position(inode: nat, path: seq<seq<byte>>)

  /** The path after entering the directory record `name`: ".." pops unless at the root, "." stays, any other name is pushed. */
  function StepPath(path: seq<seq<byte>>, name: seq<byte>): seq<seq<byte>>
  {
    if name == DotDot() then (if path == [] then [] else path[..|path| - 1])
    else if name == Dot() then path
    else path + [name]
  }

  /**
   * constroiCaminho and funct_cd: the first record named `name` in the current
   * directory decides. A directory record moves there; a record of another type is
   * refused and the position kept, which is where re-entering "." leads; a name no
   * record carries is refused.
   */
  function Cd(es: seq<Entry>, at: Position, name: seq<byte>): (r: Result<Position>)
    ensures Lookup(es, name).None? <==> r == Err(NotFound)
    ensures r.Err? ==> r.error in {NotFound, NotADirectory}
    ensures r.Ok? <==> Lookup(es, name).Some? && es[Lookup(es, name).value].fileType == FileTypeDirectory
    ensures r.Ok? ==> r.value.path == StepPath(at.path, name)
                      && r.value.inode == es[Lookup(es, name).value].inode
  {
    match Lookup(es, name)
    case None => Err(NotFound)
    case Some(i) =>
      if es[i].fileType != FileTypeDirectory then Err(NotADirectory)
      else Ok(Position(es[i].inode, StepPath(at.path, name)))
  }

  /** The bytes of `b` from `p` up to the first zero byte or the end of `b`: the C string read at `p`. */
  function CString(b: seq<byte>, p: nat): (r: seq<byte>)
    ensures |r| <= |b| - p || p >= |b|
    ensures 0 !in r
    decreases |b| - p
  {
    if p >= |b| || b[p] == 0 then [] else [b[p]] + CString(b, p + 1)
  }

  /**
   * The name constroiCaminho pushes on the path stack as written: the C string
   * at the name field of the record that starts at `at`, which is not bounded
   * by the record's name length.
   */
  function PushedNameAsWritten(block: seq<byte>, at: nat): seq<byte>
  {
    CString(block, at + 8)
  }

  /**
   * A name with no zero byte, followed in the block by a nonzero byte: the C
   * string read at its first byte is the name and then more. This is the case
   * of a name whose length is a multiple of 4 in a record just big enough for
   * it, followed by a record whose inode number has a nonzero low byte; Cd
   * pushes the record's own name.
   */
  lemma {:induction false} FullNameRunsOn(block: seq<byte>, p: nat, name: seq<byte>)
    requires p + |name| < |block| && block[p..p + |name|] == name && 0 !in name
    requires block[p + |name|] != 0
    ensures CString(block, p) == name + CString(block, p + |name|)
    ensures |CString(block, p)| > |name|
    decreases |name|
  {
    if name != [] {
      assert block[p + 1..p + 1 + |name[1..]|] == name[1..];
      FullNameRunsOn(block, p + 1, name[1..]);
      assert [block[p]] + (name[1..] + CString(block, p + |name|)) == name + CString(block, p + |name|);
    }
  }

  /**
   * A directory "abcd" with inode 12 in a 12-byte record, followed by the
   * record of inode 13: the pushed name is "abcd" followed by byte 13.
   */
  lemma PushedNameOverrunsRecord()
    ensures var block := [12, 0, 0, 0, 12, 0, 4, 2, 97, 98, 99, 100, 13, 0, 0, 0];
            PushedNameAsWritten(block, 0) == [97, 98, 99, 100, 13]
  {
    var block: seq<byte> := [12, 0, 0, 0, 12, 0, 4, 2, 97, 98, 99, 100, 13, 0, 0, 0];
    FullNameRunsOn(block, 8, [97, 98, 99, 100]);
    assert CString(block, 13) == [];
    assert CString(block, 12) == [13];
  }

  /** Entering a child directory and then its ".." restores the path. */
  lemma StepPathBack(path: seq<seq<byte>>, name: seq<byte>)
    requires name != Dot() && name != DotDot()
    ensures StepPath(StepPath(path, name), DotDot()) == path
  {
    assert (path + [name])[..|path|] == path;
  }

  /** cd into a directory mkdir made and cd ".." back: the parent's inode and the old path again. */
  lemma CdIntoFreshAndBack(es: seq<Entry>, at: Position, name: seq<byte>, child: nat)
    requires name != Dot() && name != DotDot()
    requires Lookup(es, name).Some? && es[Lookup(es, name).value].fileType == FileTypeDirectory
    requires es[Lookup(es, name).value].inode == child && 1 <= child < 0x1_0000_0000
    requires 1 <= at.inode < 0x1_0000_0000
    ensures Cd(es, at, name).Ok?
    ensures var inner := Cd(es, at, name).value;
            Cd(FreshDirBlock(child, at.inode), inner, DotDot()) == Ok(at)
  {
    var block := FreshDirBlock(child, at.inode);
    assert block[0].name != DotDot();
    assert Lookup(block, DotDot()) == Some(1);
    StepPathBack(at.path, name);
  }

  /** caminhoAtual: "/" for the root, otherwise "/" before every name of the stack. */
  function Pwd(path: seq<seq<byte>>): (r: seq<byte>)
    ensures |r| >= 1 && r[0] == Slash
    ensures path != [] ==> |r| > |path[|path| - 1]|
  {
    if path == [] then [Slash] else Joined(path)
  }

  /** Every name of the stack with a "/" before it. */
  function Joined(path: seq<seq<byte>>): (r: seq<byte>)
    ensures path != [] ==> |r| >= 1 && r[0] == Slash
  {
    if path == [] then [] else Joined(path[..|path| - 1]) + [Slash] + path[|path| - 1]
  }

  /** Entering a directory extends the rendered path by "/" and its name; at the root the leading "/" is the one already shown. */
  lemma PwdPush(path: seq<seq<byte>>, name: seq<byte>)
    ensures Pwd(path + [name]) == (if path == [] then [] else Pwd(path)) + [Slash] + name
  {
    assert (path + [name])[..|path|] == path;
    if path == [] {
      assert Joined(path) == [];
    }
  }

  /** With names free of "/", the rendering holds exactly one "/" per directory entered. */
  lemma {:induction false} PwdSlashes(path: seq<seq<byte>>)
    requires forall i :: 0 <= i < |path| ==> Slash !in path[i]
    ensures SlashCount(Joined(path)) == |path|
  {
    if path != [] {
      var init, last := path[..|path| - 1], path[|path| - 1];
      PwdSlashes(init);
      SlashCountAppend(Joined(init) + [Slash], last);
      SlashCountAppend(Joined(init), [Slash]);
      SlashCountNone(last);
    }
  }

  function SlashCount(s: seq<byte>): nat
  {
    if s == [] then 0 else SlashCount(s[..|s| - 1]) + (if s[|s| - 1] == Slash then 1 else 0)
  }

  lemma {:induction false} SlashCountAppend(a: seq<byte>, b: seq<byte>)
    ensures SlashCount(a + b) == SlashCount(a) + SlashCount(b)
  {
    if b != [] {
      SlashCountAppend(a, b[..|b| - 1]);
      assert (a + b)[..|a + b| - 1] == a + b[..|b| - 1];
    } else {
      assert a + b == a;
    }
  }

  lemma {:induction false} SlashCountNone(s: seq<byte>)
    requires Slash !in s
    ensures SlashCount(s) == 0
  {
    if s != [] {
      assert Slash !in s[..|s| - 1];
      SlashCountNone(s[..|s| - 1]);
    }
  }
}
