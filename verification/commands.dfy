/**
 * The shell's command table: a command line split into words is matched
 * against the twelve command names, and each command takes a fixed number
 * of words (its name included). A known name with the wrong number of
 * words is a syntax error; an unknown name is an unsupported command.
 */
module Commands {
  import opened Bytes
  import opened Errors

  datatype Command =
    | Info | Ls | Pwd
    | Cat(name: seq<byte>) | Attr(name: seq<byte>) | Cd(name: seq<byte>)
    | Mkdir(name: seq<byte>) | Touch(name: seq<byte>) | Rm(name: seq<byte>) | Rmdir(name: seq<byte>)
    | Rename(from: seq<byte>, to: seq<byte>) | Cp(source: seq<byte>, target: seq<byte>)

  // The command names, as the ASCII bytes of the words typed.
  const InfoWord: seq<byte> := [105, 110, 102, 111]          // "info"
  const CatWord: seq<byte> := [99, 97, 116]                  // "cat"
  const AttrWord: seq<byte> := [97, 116, 116, 114]           // "attr"
  const CdWord: seq<byte> := [99, 100]                       // "cd"
  const LsWord: seq<byte> := [108, 115]                      // "ls"
  const PwdWord: seq<byte> := [112, 119, 100]                // "pwd"
  const RenameWord: seq<byte> := [114, 101, 110, 97, 109, 101] // "rename"
  const CpWord: seq<byte> := [99, 112]                       // "cp"
  const MkdirWord: seq<byte> := [109, 107, 100, 105, 114]    // "mkdir"
  const TouchWord: seq<byte> := [116, 111, 117, 99, 104]     // "touch"
  const RmWord: seq<byte> := [114, 109]                      // "rm"
  const RmdirWord: seq<byte> := [114, 109, 100, 105, 114]    // "rmdir"

  function Keywords(): set<seq<byte>>
  {
    {InfoWord, CatWord, AttrWord, CdWord, LsWord, PwdWord, RenameWord, CpWord,
     MkdirWord, TouchWord, RmWord, RmdirWord}
  }

  /** The word that names a command. */
  function Keyword(c: Command): (w: seq<byte>)
    ensures w in Keywords()
  {
    match c
    case Info => InfoWord
    case Ls => LsWord
    case Pwd => PwdWord
    case Cat(_) => CatWord
    case Attr(_) => AttrWord
    case Cd(_) => CdWord
    case Mkdir(_) => MkdirWord
    case Touch(_) => TouchWord
    case Rm(_) => RmWord
    case Rmdir(_) => RmdirWord
    case Rename(_, _) => RenameWord
    case Cp(_, _) => CpWord
  }

  /** How many words a command name must come with, its own included. */
  function Arity(w: seq<byte>): (n: nat)
    requires w in Keywords()
    ensures 1 <= n <= 3
  {
    if w in {InfoWord, LsWord, PwdWord} then 1
    else if w in {RenameWord, CpWord} then 3
    else 2
  }

  /** The words a command is typed as. */
  function Words(c: Command): (ws: seq<seq<byte>>)
    ensures |ws| == Arity(Keyword(c)) && ws[0] == Keyword(c)
  {
    match c
    case Info => [InfoWord]
    case Ls => [LsWord]
    case Pwd => [PwdWord]
    case Cat(n) => [CatWord, n]
    case Attr(n) => [AttrWord, n]
    case Cd(n) => [CdWord, n]
    case Mkdir(n) => [MkdirWord, n]
    case Touch(n) => [TouchWord, n]
    case Rm(n) => [RmWord, n]
    case Rmdir(n) => [RmdirWord, n]
    case Rename(a, b) => [RenameWord, a, b]
    case Cp(a, b) => [CpWord, a, b]
  }

  /**
   * executarComando's dispatch. A recognised command is exactly the words it
   * is typed as; a known name with another word count is a syntax error; any
   * other first word is unsupported.
   */
  function Parse(words: seq<seq<byte>>): (r: Result<Command>)
    requires |words| >= 1
    ensures r.Ok? <==> words[0] in Keywords() && |words| == Arity(words[0])
    ensures r.Ok? ==> Words(r.value) == words
    ensures r.Err? ==> r.error == (if words[0] in Keywords() then SyntaxError else UnsupportedCommand)
  {
    var w, n := words[0], |words|;
    if w == InfoWord then (if n != 1 then Err(SyntaxError) else Ok(Info))
    else if w == CatWord then (if n != 2 then Err(SyntaxError) else Ok(Cat(words[1])))
    else if w == AttrWord then (if n != 2 then Err(SyntaxError) else Ok(Attr(words[1])))
    else if w == CdWord then (if n != 2 then Err(SyntaxError) else Ok(Cd(words[1])))
    else if w == LsWord then (if n != 1 then Err(SyntaxError) else Ok(Ls))
    else if w == PwdWord then (if n != 1 then Err(SyntaxError) else Ok(Pwd))
    else if w == RenameWord then (if n != 3 then Err(SyntaxError) else Ok(Rename(words[1], words[2])))
    else if w == CpWord then (if n != 3 then Err(SyntaxError) else Ok(Cp(words[1], words[2])))
    else if w == MkdirWord then (if n != 2 then Err(SyntaxError) else Ok(Mkdir(words[1])))
    else if w == TouchWord then (if n != 2 then Err(SyntaxError) else Ok(Touch(words[1])))
    else if w == RmWord then (if n != 2 then Err(SyntaxError) else Ok(Rm(words[1])))
    else if w == RmdirWord then (if n != 2 then Err(SyntaxError) else Ok(Rmdir(words[1])))
    else Err(UnsupportedCommand)
  }

  /** Every command, typed as its words, is recognised as itself. */
  lemma ParseWords(c: Command)
    ensures Parse(Words(c)) == Ok(c)
  {
  }
}
