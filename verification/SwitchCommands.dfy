/**
 The commands sent to a switch: validated `nv` CLI invocations and POSIX helpers, the command
 lines they render to, and the tokens a POSIX shell reads back from those lines (quoting by
 section 2.2 of the POSIX.1-2017 Shell Command Language).
 */
module SwitchCommands {
  import opened Text

  // ---- Validated arguments ------------------------------------------------------------------

  datatype InvalidCommand = BadIdentifier(value: string) | BadRemotePath(value: string) | EmptyPath

  datatype Result<+T> = Ok(value: T) | Err(error: InvalidCommand)

  predicate IsIdentifierChar(c: char) {
    IsAsciiAlphanumeric(c) || c == '-' || c == '_'
  }

  predicate IsIdentifier(s: string) {
    s != "" && s[0] != '-' && forall i | 0 <= i < |s| :: IsIdentifierChar(s[i])
  }

  datatype NvPath = NvPath(segments: seq<string>)

  predicate ValidNvPath(p: NvPath) {
    p.segments != [] && forall i | 0 <= i < |p.segments| :: IsIdentifier(p.segments[i])
  }

  /** Index of the first segment that is not an identifier, or the number of segments. */
  function FirstBad(segments: seq<string>): (n: nat)
    ensures n <= |segments|
    ensures forall i | 0 <= i < n :: IsIdentifier(segments[i])
    ensures n < |segments| ==> !IsIdentifier(segments[n])
  {
    if segments == [] || !IsIdentifier(segments[0]) then 0 else 1 + FirstBad(segments[1..])
  }

  /** What is wrong with a path segment or an application name, if anything. */
  predicate BadName(s: string) {
    || s == "" || s[0] == '-'
    || exists i | 0 <= i < |s| ::
         !('a' <= s[i] <= 'z' || 'A' <= s[i] <= 'Z' || '0' <= s[i] <= '9' || s[i] == '-' || s[i] == '_')
  }

  lemma IdentifierExactly(s: string)
    ensures IsIdentifier(s) <==> !BadName(s)
  {
  }

  function NewNvPath(segments: seq<string>): (r: Result<NvPath>)
    ensures r.Ok? <==> segments != [] && forall i | 0 <= i < |segments| :: !BadName(segments[i])
    ensures r.Ok? <==> ValidNvPath(NvPath(segments))
    ensures r.Ok? ==> r.value.segments == segments
    ensures r == Err(EmptyPath) <==> segments == []
    ensures r.Err? && segments != [] ==>
              exists n | 0 <= n < |segments| ::
                r == Err(BadIdentifier(segments[n])) && BadName(segments[n])
                && forall i | 0 <= i < n :: !BadName(segments[i])
  {
    IdentifiersExactly(segments);
    var n := FirstBad(segments);
    if n < |segments| then Err(BadIdentifier(segments[n]))
    else if segments == [] then Err(EmptyPath)
    else Ok(NvPath(segments))
  }

  lemma IdentifiersExactly(segments: seq<string>)
    ensures forall i | 0 <= i < |segments| :: IsIdentifier(segments[i]) <==> !BadName(segments[i])
  {
    forall i | 0 <= i < |segments| ensures IsIdentifier(segments[i]) <==> !BadName(segments[i]) {
      IdentifierExactly(segments[i]);
    }
  }

  method DisplayNvPath(p: NvPath) returns (text: string)
    ensures text == Join(p.segments, " ")
  {
    text := "";
    if p.segments != [] {
      text := p.segments[0];
      for i := 1 to |p.segments|
        invariant text == Join(p.segments[..i], " ")
      {
        JoinAppend(p.segments[..i], p.segments[i], " ");
        assert p.segments[..i] + [p.segments[i]] == p.segments[..i + 1];
        text := text + " " + p.segments[i];
      }
      assert p.segments[..|p.segments|] == p.segments;
    }
  }

  datatype RemotePath = RemotePath(path: string)

  predicate ValidRemotePath(s: string) {
    s != "" && s[0] != '-' && forall i | 0 <= i < |s| :: s[i] != '\0' && s[i] != '\n' && s[i] != '\r'
  }

  function NewRemotePath(s: string): (r: Result<RemotePath>)
    ensures r.Err? <==> s == "" || s[0] == '-' || '\0' in s || '\n' in s || '\r' in s
    ensures r.Ok? <==> ValidRemotePath(s)
    ensures r == if ValidRemotePath(s) then Ok(RemotePath(s)) else Err(BadRemotePath(s))
  {
    if s == "" then Err(BadRemotePath(s))
    else if exists i | 0 <= i < |s| :: s[i] == '\0' then Err(BadRemotePath(s))
    else if exists i | 0 <= i < |s| :: s[i] == '\n' || s[i] == '\r' then Err(BadRemotePath(s))
    else if s[0] == '-' then Err(BadRemotePath(s))
    else Ok(RemotePath(s))
  }

  /** The text between the outer quotes. */
  function Escaped(s: string): string {
    if s == "" then "" else Escaped(s[..|s| - 1]) + if s[|s| - 1] == '\'' then "'\\''" else [s[|s| - 1]]
  }

  function QuotedText(s: string): string {
    "'" + Escaped(s) + "'"
  }

  method Quoted(p: RemotePath) returns (q: string)
    ensures q == QuotedText(p.path)
  {
    q := "'";
    for i := 0 to |p.path|
      invariant q == "'" + Escaped(p.path[..i])
    {
      assert p.path[..i + 1][..i] == p.path[..i];
      if p.path[i] == '\'' {
        q := q + "'\\''";
      } else {
        q := q + [p.path[i]];
      }
    }
    assert p.path[..|p.path|] == p.path;
    q := q + "'";
  }

  /** The twelve permission bits. */
  type FileMode = m: nat | m < 4096

  function Octal(n: nat): (s: string)
    ensures s != [] && forall i | 0 <= i < |s| :: '0' <= s[i] <= '7'
  {
    if n < 8 then [Digit(n)] else Octal(n / 8) + [Digit(n % 8)]
  }

  function OctalValue(s: string): nat
    requires AllDigits(s)
  {
    if s == [] then 0 else 8 * OctalValue(s[..|s| - 1]) + DigitValue(s[|s| - 1])
  }

  lemma {:induction false} OctalRoundTrip(n: nat)
    ensures OctalValue(Octal(n)) == n
  {
    var s := Octal(n);
    if n < 8 {
      assert s[..0] == [];
    } else {
      OctalRoundTrip(n / 8);
      assert s[..|s| - 1] == Octal(n / 8);
    }
  }

  // ---- Commands -----------------------------------------------------------------------------

  datatype ConfigOperation = Apply | ApplyAssumeYes | Save | Detach {
    function Args(): seq<string> {
      match this
      case Apply => ["apply"]
      case ApplyAssumeYes => ["apply", "--assume-yes"]
      case Save => ["save"]
      case Detach => ["detach"]
    }
  }

  datatype ActionVerb = Update | Restore | Start | Stop | Import | Install | Uninstall | Fetch | Delete {
    function Text(): string {
      match this
      case Update => "update"
      case Restore => "restore"
      case Start => "start"
      case Stop => "stop"
      case Import => "import"
      case Install => "install"
      case Uninstall => "uninstall"
      case Fetch => "fetch"
      case Delete => "delete"
    }
  }

  /** A validated application name. */
  type ClusterApp = s: string | IsIdentifier(s) witness "a"

  datatype MtlsService = NvueApi | GnmiServer | ClusterAppService(app: ClusterApp)

  /** Arguments after `nv`; a path is one argument with spaces in it. */
  datatype NvCommand = NvCommand(args: seq<string>)

  function NvUnset(p: NvPath): NvCommand {
    NvCommand(["unset", Join(p.segments, " ")])
  }

  function NvConfig(op: ConfigOperation): NvCommand {
    NvCommand(["config"] + op.Args())
  }

  function NvAction(verb: ActionVerb, p: NvPath): NvCommand {
    NvCommand(["action", verb.Text(), Join(p.segments, " ")])
  }

  function NvFactoryReset(): NvCommand {
    NvCommand(["action", "reset", "system", "factory-default", "force"])
  }

  function ManagerEncryptionPath(app: ClusterApp): (p: NvPath)
    ensures ValidNvPath(p)
  {
    NvPath(["cluster", "apps", app, "manager", "encryption"])
  }

  function NvSetManagerMtls(app: ClusterApp): NvCommand {
    NvCommand(NvAction(Update, ManagerEncryptionPath(app)).args + ["mtls"])
  }

  function NvUnsetMtls(service: MtlsService): NvCommand {
    match service
    case NvueApi => NvUnset(NvPath(["system", "api", "mtls", "ca-certificate"]))
    case GnmiServer => NvUnset(NvPath(["system", "gnmi-server", "mtls", "certificate"]))
    case ClusterAppService(app) => NvAction(Restore, ManagerEncryptionPath(app))
  }

  function NvUnsetGnmiCaCertificate(): NvCommand {
    NvUnset(NvPath(["system", "gnmi-server", "mtls", "ca-certificate"]))
  }

  function RenderNv(c: NvCommand): string {
    Join(["nv"] + c.args, " ")
  }

  datatype ShellCommand =
    | CreateDirectory(path: RemotePath, mode: FileMode)
    | CreateDirectoryTree(path: RemotePath)
    | ConfirmFile(path: RemotePath)
    | SetPermissions(path: RemotePath, mode: FileMode)
    | RemoveFile(path: RemotePath)
    | RemoveDirectory(path: RemotePath)

  const FILE_CONFIRMATION := "ok"

  /** The words of the command line, the path quoted. */
  function ShellPieces(c: ShellCommand): seq<string> {
    var quoted := QuotedText(c.path.path);
    match c
    case CreateDirectory(_, mode) => ["install", "-d", "-m", Octal(mode), quoted]
    case CreateDirectoryTree(_) => ["mkdir", "-p", quoted]
    case ConfirmFile(_) => ["test", "-f", quoted, "&&", "echo", FILE_CONFIRMATION]
    case SetPermissions(_, mode) => ["chmod", Octal(mode), quoted]
    case RemoveFile(_) => ["rm", "-f", quoted]
    case RemoveDirectory(_) => ["rm", "-rf", quoted]
  }

  function RenderShell(c: ShellCommand): string {
    Join(ShellPieces(c), " ")
  }

  datatype SwitchCommand = Nv(nv: NvCommand) | Shell(shell: ShellCommand) {
    function Render(): string {
      match this case Nv(c) => RenderNv(c) case Shell(c) => RenderShell(c)
    }

    function RequiredOutput(): Option<string> {
      if this.Shell? && shell.ConfirmFile? then Some(FILE_CONFIRMATION) else None
    }
  }

  // ---- How a POSIX shell reads a line -------------------------------------------------------

  datatype Token = Word(text: string) | AndIf

  datatype Mode = Blank | InWord | InQuotes | AfterBackslash | AfterAmpersand | Rejected

  datatype Lexer = Lexer(mode: Mode, tokens: seq<Token>, word: string)

  /** Characters that do not stand for themselves outside quotes. */
  predicate IsSpecial(c: char) {
    || c == ' ' || c == '\t' || c == '\n' || c == '|' || c == '&' || c == ';' || c == '<' || c == '>'
    || c == '(' || c == ')' || c == '$' || c == '`' || c == '\\' || c == '"' || c == '\''
    || c == '*' || c == '?' || c == '[' || c == '#' || c == '~' || c == '=' || c == '%'
  }

  function LexChar(l: Lexer, c: char): Lexer {
    match l.mode
    case Blank =>
      if c == ' ' || c == '\t' then l
      else if c == '\'' then l.(mode := InQuotes)
      else if c == '\\' then l.(mode := AfterBackslash)
      else if c == '&' then l.(mode := AfterAmpersand)
      else if !IsSpecial(c) then Lexer(InWord, l.tokens, [c])
      else l.(mode := Rejected)
    case InWord =>
      if c == ' ' || c == '\t' then Lexer(Blank, l.tokens + [Word(l.word)], "")
      else if c == '\'' then l.(mode := InQuotes)
      else if c == '\\' then l.(mode := AfterBackslash)
      else if c == '&' then Lexer(AfterAmpersand, l.tokens + [Word(l.word)], "")
      else if !IsSpecial(c) then l.(word := l.word + [c])
      else l.(mode := Rejected)
    case InQuotes =>
      if c == '\'' then l.(mode := InWord) else l.(word := l.word + [c])
    case AfterBackslash =>
      if c == '\n' then l.(mode := Rejected) else Lexer(InWord, l.tokens, l.word + [c])
    case AfterAmpersand =>
      if c == '&' then Lexer(Blank, l.tokens + [AndIf], "") else l.(mode := Rejected)
    case Rejected => l
  }

  function Lex(l: Lexer, s: string): Lexer {
    if s == "" then l else LexChar(Lex(l, s[..|s| - 1]), s[|s| - 1])
  }

  function Finish(l: Lexer): Option<seq<Token>> {
    match l.mode
    case Blank => Some(l.tokens)
    case InWord => Some(l.tokens + [Word(l.word)])
    case _ => None
  }

  /** The tokens of a line, or `None` when it has an open quote or an active special character. */
  function Tokenize(s: string): Option<seq<Token>> {
    Finish(Lex(Lexer(Blank, [], ""), s))
  }

  lemma {:induction false} LexConcat(l: Lexer, a: string, b: string)
    ensures Lex(l, a + b) == Lex(Lex(l, a), b)
  {
    if b == "" {
      assert a + b == a;
    } else {
      var n := |a + b| - 1;
      assert (a + b)[..n] == a + b[..|b| - 1];
      LexConcat(l, a, b[..|b| - 1]);
    }
  }

  lemma LexOne(l: Lexer, c: char)
    ensures Lex(l, [c]) == LexChar(l, c)
  {
    assert [c][..0] == "";
  }

  predicate PlainWord(s: string) {
    s != "" && forall i | 0 <= i < |s| :: !IsSpecial(s[i])
  }

  lemma {:induction false} LexPlain(tokens: seq<Token>, s: string)
    requires PlainWord(s)
    ensures Lex(Lexer(Blank, tokens, ""), s) == Lexer(InWord, tokens, s)
  {
    var n := |s| - 1;
    if n == 0 {
      assert s == [s[0]];
      LexOne(Lexer(Blank, tokens, ""), s[0]);
    } else {
      LexPlain(tokens, s[..n]);
      assert s[..n] + [s[n]] == s;
    }
  }

  lemma LexEscapedQuote(tokens: seq<Token>, w: string)
    ensures Lex(Lexer(InQuotes, tokens, w), "'\\''") == Lexer(InQuotes, tokens, w + "'")
  {
    var l := Lexer(InQuotes, tokens, w);
    var q := "'\\''";
    assert q[..3] == "'\\'" && q[..3][..2] == "'\\" && q[..3][..2][..1] == "'";
    LexOne(l, '\'');
    assert Lex(l, "'") == Lexer(InWord, tokens, w);
    assert Lex(l, "'\\") == Lexer(AfterBackslash, tokens, w);
    assert Lex(l, "'\\'") == Lexer(InWord, tokens, w + "'");
  }

  lemma {:induction false} LexEscaped(tokens: seq<Token>, w: string, s: string)
    ensures Lex(Lexer(InQuotes, tokens, w), Escaped(s)) == Lexer(InQuotes, tokens, w + s)
  {
    if s == "" {
      assert w + s == w;
    } else {
      var n := |s| - 1;
      var last := if s[n] == '\'' then "'\\''" else [s[n]];
      LexEscaped(tokens, w, s[..n]);
      LexConcat(Lexer(InQuotes, tokens, w), Escaped(s[..n]), last);
      if s[n] == '\'' {
        LexEscapedQuote(tokens, w + s[..n]);
      } else {
        LexOne(Lexer(InQuotes, tokens, w + s[..n]), s[n]);
      }
      assert w + s[..n] + [s[n]] == w + s;
    }
  }

  /** A quoted path, whatever it holds, is read as one word equal to the path. */
  lemma LexQuoted(tokens: seq<Token>, s: string)
    ensures Lex(Lexer(Blank, tokens, ""), QuotedText(s)) == Lexer(InWord, tokens, s)
  {
    var l := Lexer(Blank, tokens, "");
    LexConcat(l, "'" + Escaped(s), "'");
    LexConcat(l, "'", Escaped(s));
    LexOne(l, '\'');
    LexEscaped(tokens, "", s);
    LexOne(Lexer(InQuotes, tokens, s), '\'');
    assert "" + s == s;
  }

  lemma LexAndIf(tokens: seq<Token>)
    ensures Lex(Lexer(Blank, tokens, ""), "&&") == Lexer(Blank, tokens + [AndIf], "")
  {
    var l := Lexer(Blank, tokens, "");
    assert "&&"[..1] == "&";
    LexOne(l, '&');
  }

  /** Where the lexer is after a piece that spells `t`. */
  function After(tokens: seq<Token>, t: Token): Lexer {
    if t.Word? then Lexer(InWord, tokens, t.text) else Lexer(Blank, tokens + [AndIf], "")
  }

  /** A piece of a line and the token it stands for. */
  predicate Spells(piece: string, t: Token) {
    match t
    case AndIf => piece == "&&"
    case Word(text) => piece == QuotedText(text) || (piece == text && PlainWord(text))
  }

  lemma LexPiece(tokens: seq<Token>, piece: string, t: Token)
    requires Spells(piece, t)
    ensures Lex(Lexer(Blank, tokens, ""), piece) == After(tokens, t)
  {
    if t.AndIf? {
      LexAndIf(tokens);
    } else if piece == QuotedText(t.text) {
      LexQuoted(tokens, t.text);
    } else {
      LexPlain(tokens, piece);
    }
  }

  lemma LexFirst(done: seq<Token>, piece: string, t: Token, rest: string)
    requires Spells(piece, t)
    ensures Lex(Lexer(Blank, done, ""), piece + " " + rest) == Lex(Lexer(Blank, done + [t], ""), rest)
  {
    var l := Lexer(Blank, done, "");
    LexPiece(done, piece, t);
    LexConcat(l, piece + " ", rest);
    LexConcat(l, piece, " ");
    LexOne(After(done, t), ' ');
  }

  lemma LexLast(done: seq<Token>, piece: string, t: Token)
    requires Spells(piece, t)
    ensures Finish(Lex(Lexer(Blank, done, ""), piece)) == Some(done + [t])
  {
    LexPiece(done, piece, t);
  }

  ghost predicate AllSpell(pieces: seq<string>, ts: seq<Token>) {
    |pieces| == |ts| && forall i | 0 <= i < |ts| :: Spells(pieces[i], ts[i])
  }

  lemma TailSpells(pieces: seq<string>, ts: seq<Token>)
    requires AllSpell(pieces, ts) && pieces != []
    ensures AllSpell(pieces[1..], ts[1..])
  {
  }

  /** Pieces separated by single spaces are read as their tokens. */
  lemma {:induction false} LexPhrase(pieces: seq<string>, ts: seq<Token>, done: seq<Token>)
    requires AllSpell(pieces, ts) && pieces != []
    ensures Finish(Lex(Lexer(Blank, done, ""), Join(pieces, " "))) == Some(done + ts)
  {
    if |pieces| == 1 {
      LexLast(done, pieces[0], ts[0]);
      assert ts == [ts[0]];
    } else {
      var rest := Join(pieces[1..], " ");
      LexFirst(done, pieces[0], ts[0], rest);
      assert Join(pieces, " ") == pieces[0] + " " + rest;
      TailSpells(pieces, ts);
      LexPhrase(pieces[1..], ts[1..], done + [ts[0]]);
      assert done + [ts[0]] + ts[1..] == done + ts;
    }
  }

  lemma TokenizePhrase(pieces: seq<string>, ts: seq<Token>)
    requires AllSpell(pieces, ts) && pieces != []
    ensures Tokenize(Join(pieces, " ")) == Some(ts)
  {
    LexPhrase(pieces, ts, []);
    assert [] + ts == ts;
  }

  // ---- Round trip of the POSIX helpers ------------------------------------------------------

  function ShellTokens(c: ShellCommand): seq<Token> {
    var path := Word(c.path.path);
    match c
    case CreateDirectory(_, mode) => [Word("install"), Word("-d"), Word("-m"), Word(Octal(mode)), path]
    case CreateDirectoryTree(_) => [Word("mkdir"), Word("-p"), path]
    case ConfirmFile(_) => [Word("test"), Word("-f"), path, AndIf, Word("echo"), Word("ok")]
    case SetPermissions(_, mode) => [Word("chmod"), Word(Octal(mode)), path]
    case RemoveFile(_) => [Word("rm"), Word("-f"), path]
    case RemoveDirectory(_) => [Word("rm"), Word("-rf"), path]
  }

  lemma FixedWordsArePlain()
    ensures PlainWord("install") && PlainWord("-d") && PlainWord("-m")
    ensures PlainWord("mkdir") && PlainWord("-p") && PlainWord("test") && PlainWord("-f")
    ensures PlainWord("echo") && PlainWord("ok") && PlainWord("chmod") && PlainWord("rm") && PlainWord("-rf")
  {
  }

  lemma OctalIsPlain(n: nat)
    ensures PlainWord(Octal(n))
  {
  }

  /** The shell reads the fixed words of the command and one word equal to the path. */
  lemma ShellReadsBack(c: ShellCommand)
    ensures Tokenize(RenderShell(c)) == Some(ShellTokens(c))
  {
    FixedWordsArePlain();
    if c.CreateDirectory? || c.SetPermissions? {
      OctalIsPlain(c.mode);
    }
    TokenizePhrase(ShellPieces(c), ShellTokens(c));
  }

  function ParseMode(s: string): Option<FileMode> {
    if AllDigits(s) && OctalValue(s) < 4096 then Some(OctalValue(s)) else None
  }

  /** The command a list of tokens stands for. */
  function ParseShell(ts: seq<Token>): Option<ShellCommand> {
    if |ts| == 5 && ts[0] == Word("install") && ts[1] == Word("-d") && ts[2] == Word("-m") && ts[3].Word? && ts[4].Word?
    then match ParseMode(ts[3].text)
         case None => None
         case Some(m) => Some(CreateDirectory(RemotePath(ts[4].text), m))
    else if |ts| == 6 && ts[0] == Word("test") && ts[1] == Word("-f") && ts[2].Word?
            && ts[3..] == [AndIf, Word("echo"), Word("ok")]
    then Some(ConfirmFile(RemotePath(ts[2].text)))
    else if |ts| != 3 || !ts[2].Word? then None
    else
      var path := RemotePath(ts[2].text);
      if ts[0] == Word("mkdir") && ts[1] == Word("-p") then Some(CreateDirectoryTree(path))
      else if ts[0] == Word("rm") && ts[1] == Word("-f") then Some(RemoveFile(path))
      else if ts[0] == Word("rm") && ts[1] == Word("-rf") then Some(RemoveDirectory(path))
      else if ts[0] == Word("chmod") && ts[1].Word? then
        match ParseMode(ts[1].text)
        case None => None
        case Some(m) => Some(SetPermissions(path, m))
      else None
  }

  lemma ParseTokens(c: ShellCommand)
    ensures ParseShell(ShellTokens(c)) == Some(c)
  {
    if c.CreateDirectory? || c.SetPermissions? {
      OctalRoundTrip(c.mode);
    }
  }

  /** Rendering loses nothing: the command can be recovered from its line. */
  lemma ShellRoundTrip(c: ShellCommand)
    ensures Tokenize(RenderShell(c)).Some? && ParseShell(Tokenize(RenderShell(c)).value) == Some(c)
  {
    ShellReadsBack(c);
    ParseTokens(c);
  }

  // ---- Reading back `nv` commands -----------------------------------------------------------

  function Words(ws: seq<string>): seq<Token> {
    seq(|ws|, i requires 0 <= i < |ws| => Word(ws[i]))
  }

  lemma {:induction false} JoinAppend(ws: seq<string>, w: string, sep: string)
    requires ws != []
    ensures Join(ws + [w], sep) == Join(ws, sep) + sep + w
  {
    if |ws| == 1 {
      assert (ws + [w])[1..] == [w];
    } else {
      assert (ws + [w])[1..] == ws[1..] + [w];
      JoinAppend(ws[1..], w, sep);
    }
  }

  /** A path as the last argument joins like its segments. */
  lemma {:induction false} JoinFlattens(fixed: seq<string>, segments: seq<string>)
    requires segments != []
    ensures Join(fixed + [Join(segments, " ")], " ") == Join(fixed + segments, " ")
  {
    if fixed == [] {
      assert fixed + [Join(segments, " ")] == [Join(segments, " ")];
      assert fixed + segments == segments;
    } else {
      assert (fixed + [Join(segments, " ")])[1..] == fixed[1..] + [Join(segments, " ")];
      assert (fixed + segments)[1..] == fixed[1..] + segments;
      JoinFlattens(fixed[1..], segments);
    }
  }

  lemma IdentifierIsPlain(s: string)
    requires IsIdentifier(s)
    ensures PlainWord(s)
  {
  }

  lemma TokenizeWords(ws: seq<string>)
    requires ws != [] && forall i | 0 <= i < |ws| :: PlainWord(ws[i])
    ensures Tokenize(Join(ws, " ")) == Some(Words(ws))
  {
    TokenizePhrase(ws, Words(ws));
  }

  /** The shell reads `nv`, the fixed words and every path segment unchanged. */
  lemma NvReadsBack(fixed: seq<string>, p: NvPath)
    requires ValidNvPath(p) && forall i | 0 <= i < |fixed| :: PlainWord(fixed[i])
    ensures Tokenize(RenderNv(NvCommand(fixed + [Join(p.segments, " ")]))) == Some(Words(["nv"] + fixed + p.segments))
  {
    var ws := ["nv"] + fixed + p.segments;
    JoinFlattens(["nv"] + fixed, p.segments);
    assert ["nv"] + (fixed + [Join(p.segments, " ")]) == ["nv"] + fixed + [Join(p.segments, " ")];
    forall i | 0 <= i < |ws| ensures PlainWord(ws[i]) {
      if i >= 1 + |fixed| {
        IdentifierIsPlain(p.segments[i - 1 - |fixed|]);
      }
    }
    TokenizeWords(ws);
  }

  lemma NvUnsetReadsBack(p: NvPath)
    requires ValidNvPath(p)
    ensures Tokenize(RenderNv(NvUnset(p))) == Some(Words(["nv", "unset"] + p.segments))
  {
    NvReadsBack(["unset"], p);
    assert ["unset"] + [Join(p.segments, " ")] == NvUnset(p).args;
    assert ["nv"] + ["unset"] + p.segments == ["nv", "unset"] + p.segments;
  }

  lemma VerbIsPlain(verb: ActionVerb)
    ensures PlainWord(verb.Text())
  {
  }

  /** The word each verb is sent as. */
  function VerbWord(verb: ActionVerb): string {
    match verb
    case Update => "update"
    case Restore => "restore"
    case Start => "start"
    case Stop => "stop"
    case Import => "import"
    case Install => "install"
    case Uninstall => "uninstall"
    case Fetch => "fetch"
    case Delete => "delete"
  }

  lemma NvActionReadsBack(verb: ActionVerb, p: NvPath)
    requires ValidNvPath(p)
    ensures Tokenize(RenderNv(NvAction(verb, p))) == Some(Words(["nv", "action", VerbWord(verb)] + p.segments))
  {
    VerbIsPlain(verb);
    var fixed := ["action", verb.Text()];
    NvReadsBack(fixed, p);
    assert fixed + [Join(p.segments, " ")] == NvAction(verb, p).args;
    assert ["nv"] + fixed + p.segments == ["nv", "action", verb.Text()] + p.segments;
  }

  lemma ConfigArgsArePlain(op: ConfigOperation)
    ensures op.Args() != [] && forall i | 0 <= i < |op.Args()| :: PlainWord(op.Args()[i])
  {
  }

  /** The words each operation is sent as. */
  function ConfigWords(op: ConfigOperation): seq<string> {
    match op
    case Apply => ["nv", "config", "apply"]
    case ApplyAssumeYes => ["nv", "config", "apply", "--assume-yes"]
    case Save => ["nv", "config", "save"]
    case Detach => ["nv", "config", "detach"]
  }

  lemma NvConfigReadsBack(op: ConfigOperation)
    ensures Tokenize(RenderNv(NvConfig(op))) == Some(Words(ConfigWords(op)))
  {
    ConfigArgsArePlain(op);
    assert ["nv"] + NvConfig(op).args == ["nv", "config"] + op.Args();
    TokenizeWords(["nv", "config"] + op.Args());
    assert ["nv", "config"] + op.Args() == ConfigWords(op);
  }

  /** What clears the binding of each service, word by word. */
  lemma UnsetMtlsReads(service: MtlsService)
    ensures Tokenize(RenderNv(NvUnsetMtls(service))) == Some(Words(UnsetWords(service)))
  {
    match service {
      case NvueApi => UnsetReads(["system", "api", "mtls", "ca-certificate"], UnsetWords(NvueApi));
      case GnmiServer => UnsetReads(["system", "gnmi-server", "mtls", "certificate"], UnsetWords(GnmiServer));
      case ClusterAppService(app) => RestoreReads(app);
    }
  }

  function UnsetWords(service: MtlsService): seq<string> {
    match service
    case NvueApi => ["nv", "unset", "system", "api", "mtls", "ca-certificate"]
    case GnmiServer => ["nv", "unset", "system", "gnmi-server", "mtls", "certificate"]
    case ClusterAppService(app) =>
      ["nv", "action", "restore", "cluster", "apps", app, "manager", "encryption"]
  }

  lemma RestoreReads(app: ClusterApp)
    ensures Tokenize(RenderNv(NvAction(Restore, ManagerEncryptionPath(app))))
            == Some(Words(["nv", "action", "restore", "cluster", "apps", app, "manager", "encryption"]))
  {
    NvActionReadsBack(Restore, ManagerEncryptionPath(app));
    assert ["nv", "action", "restore"] + ["cluster", "apps", app, "manager", "encryption"]
           == ["nv", "action", "restore", "cluster", "apps", app, "manager", "encryption"];
  }

  lemma UnsetReads(segments: seq<string>, words: seq<string>)
    requires ValidNvPath(NvPath(segments)) && words == ["nv", "unset"] + segments
    ensures Tokenize(RenderNv(NvUnset(NvPath(segments)))) == Some(Words(words))
  {
    NvUnsetReadsBack(NvPath(segments));
  }

  /** The other spelling for gNMI. */
  lemma UnsetGnmiCaReads()
    ensures Tokenize(RenderNv(NvUnsetGnmiCaCertificate()))
            == Some(Words(["nv", "unset", "system", "gnmi-server", "mtls", "ca-certificate"]))
  {
    UnsetReads(["system", "gnmi-server", "mtls", "ca-certificate"],
               ["nv", "unset", "system", "gnmi-server", "mtls", "ca-certificate"]);
  }

  lemma NvFactoryResetReadsBack()
    ensures Tokenize(RenderNv(NvFactoryReset()))
            == Some(Words(["nv", "action", "reset", "system", "factory-default", "force"]))
  {
    assert ["nv"] + NvFactoryReset().args == ["nv", "action", "reset", "system", "factory-default", "force"];
    TokenizeWords(["nv", "action", "reset", "system", "factory-default", "force"]);
  }

  lemma NvManagerMtlsReadsBack(app: ClusterApp)
    ensures Tokenize(RenderNv(NvSetManagerMtls(app)))
            == Some(Words(["nv", "action", "update", "cluster", "apps", app, "manager", "encryption", "mtls"]))
  {
    assert ["nv", "action", "update"] + ManagerEncryptionPath(app).segments + ["mtls"]
           == ["nv", "action", "update", "cluster", "apps", app, "manager", "encryption", "mtls"];
    var p := ManagerEncryptionPath(app).segments;
    var head := ["nv", "action", "update"];
    assert ["nv"] + NvSetManagerMtls(app).args == head + [Join(p, " ")] + ["mtls"];
    JoinAppend(head + [Join(p, " ")], "mtls", " ");
    JoinFlattens(head, p);
    JoinAppend(head + p, "mtls", " ");
    var ws := head + p + ["mtls"];
    forall i | 0 <= i < |ws| ensures PlainWord(ws[i]) {
      if 3 <= i < 3 + |p| {
        IdentifierIsPlain(p[i - 3]);
      }
    }
    TokenizeWords(ws);
  }

  lemma WordsInjective(a: seq<string>, b: seq<string>)
    requires Words(a) == Words(b)
    ensures a == b
  {
    assert |a| == |Words(a)| == |b|;
    forall i | 0 <= i < |a| ensures a[i] == b[i] {
      assert Words(a)[i] == Word(a[i]) && Words(b)[i] == Word(b[i]);
    }
  }

  lemma VerbsDiffer(v: ActionVerb, w: ActionVerb)
    requires VerbWord(v) == VerbWord(w)
    ensures v == w
  {
    assert |VerbWord(v)| == |VerbWord(w)|;
    assert VerbWord(v)[0] == VerbWord(w)[0] && VerbWord(v)[2] == VerbWord(w)[2];
  }

  /** Different paths and different verbs give different command lines. */
  lemma NvRenderInjective(v: ActionVerb, p: NvPath, w: ActionVerb, q: NvPath)
    requires ValidNvPath(p) && ValidNvPath(q)
    ensures RenderNv(NvUnset(p)) == RenderNv(NvUnset(q)) ==> p == q
    ensures RenderNv(NvAction(v, p)) == RenderNv(NvAction(w, q)) ==> v == w && p == q
  {
    NvUnsetReadsBack(p);
    NvUnsetReadsBack(q);
    if RenderNv(NvUnset(p)) == RenderNv(NvUnset(q)) {
      var a, b := ["nv", "unset"] + p.segments, ["nv", "unset"] + q.segments;
      WordsInjective(a, b);
      assert a[2..] == p.segments && b[2..] == q.segments;
    }
    NvActionReadsBack(v, p);
    NvActionReadsBack(w, q);
    if RenderNv(NvAction(v, p)) == RenderNv(NvAction(w, q)) {
      var a, b := ["nv", "action", VerbWord(v)] + p.segments, ["nv", "action", VerbWord(w)] + q.segments;
      WordsInjective(a, b);
      assert a[2] == b[2] && a[3..] == p.segments && b[3..] == q.segments;
      VerbsDiffer(v, w);
    }
  }
}
