/**
 * The older, text-file revision of the bot in main.go: its line-based
 * announcement config (`cfg.txt`), its secrets file (`secrets.txt`), the
 * Discord chat-command dispatcher and the decision to regenerate the Twitch
 * token. The config records live in a fixed array of five slots.
 */
module LegacyBot {
  import opened Wrappers
  import opened GoStrings

  /** One announcement record (`announceInfo`): where to announce which Twitch channel. */
  datatype AnnounceInfo = AnnounceInfo(guildId: string, channelId: string, twitchName: string)

  /** The zero value of a record, held by every slot before anything is loaded. */
  const EmptyInfo: AnnounceInfo := AnnounceInfo("", "", "")

  /** Size of the record array `info`. */
  const Slots: nat := 5

  // ---------------------------------------------------------------------------
  // The config line format

  /** The text `writeConfig` writes for a record, without its newline. */
  function FormatLine(a: AnnounceInfo): (line: string)
    ensures Count(line, ' ') == Count(a.guildId, ' ') + Count(a.channelId, ' ') + Count(a.twitchName, ' ') + 2
  {
    var head := a.guildId + " " + a.channelId + " ";
    CountAppend(a.guildId, " ", ' ');
    CountAppend(a.guildId + " ", a.channelId, ' ');
    CountAppend(a.guildId + " " + a.channelId, " ", ' ');
    CountAppend(head, a.twitchName, ' ');
    head + a.twitchName
  }

  /** A field that survives a write and a reload: no space, newline or carriage return. */
  predicate PlainField(f: string) {
    ' ' !in f && '\n' !in f && '\r' !in f
  }

  predicate PlainRecord(a: AnnounceInfo) {
    PlainField(a.guildId) && PlainField(a.channelId) && PlainField(a.twitchName)
  }

  /**
   * The parse `loadConfig` applies to one line: split on single spaces and take
   * the first three pieces. With fewer than three pieces the Go code indexes
   * out of range and panics: `None` here.
   */
  function ParseLine(line: string): (r: Option<AnnounceInfo>)
    ensures r.None? <==> Count(line, ' ') < 2
  {
    var s := Split(line, " ");
    SplitOnChar(line, ' ');
    if |s| < 3 then None else Some(AnnounceInfo(s[0], s[1], s[2]))
  }

  /** The fields of a parsed line hold no space, and the record's own line is a
      prefix of the parsed line, followed by its end or by a space (any further
      fields are ignored). */
  lemma ParseLineShape(line: string)
    ensures ParseLine(line).Some? ==>
      var a := ParseLine(line).value;
      ' ' !in a.guildId && ' ' !in a.channelId && ' ' !in a.twitchName
    ensures ParseLine(line).Some? ==>
      var f := FormatLine(ParseLine(line).value);
      |f| <= |line| && line[..|f|] == f && (|f| == |line| || line[|f|] == ' ')
  {
    var s := Split(line, " ");
    SplitOnChar(line, ' ');
    if |s| >= 3 {
      JoinedPrefix(line, " ", 3);
      assert s[..3] == [s[0], s[1], s[2]];
      JoinThree(s[0], s[1], s[2], " ");
    }
  }

  /** Round trip: the line written for a record with space-free fields parses back
      to the record, and any further space-separated fields are ignored. */
  lemma LineRoundTrip(a: AnnounceInfo, extra: string)
    requires ' ' !in a.guildId && ' ' !in a.channelId && ' ' !in a.twitchName
    requires extra == "" || extra[0] == ' '
    ensures ParseLine(FormatLine(a) + extra) == Some(a)
  {
    assert " "[0] == ' ';
    assert extra != "" ==> extra[..1] == " ";
    SplitThree(a.guildId, a.channelId, a.twitchName, extra, " ");
  }

  /** The lines of a config file holding `records`, in order. */
  function FormatLines(records: seq<AnnounceInfo>): seq<string> {
    seq(|records|, k requires 0 <= k < |records| => FormatLine(records[k]))
  }

  /** The config file holding `records`: one line per record, each ended by a newline. */
  function ConfigText(records: seq<AnnounceInfo>): string {
    Unlines(FormatLines(records))
  }

  /** The line of a plain record is left intact by the line scanner. */
  lemma PlainLineScans(a: AnnounceInfo)
    requires PlainRecord(a)
    ensures ScannableLine(FormatLine(a))
  {
    var f := FormatLine(a);
    if |a.twitchName| > 0 {
      assert f[|f| - 1] == a.twitchName[|a.twitchName| - 1];
    } else {
      assert f[|f| - 1] == ' ';
    }
  }

  /** Scanning a config file written from plain records gives back one line per
      record, and each line parses back to its record. */
  lemma ConfigRoundTrip(records: seq<AnnounceInfo>)
    requires forall k :: 0 <= k < |records| ==> PlainRecord(records[k])
    ensures ScanLines(ConfigText(records)) == FormatLines(records)
    ensures forall k :: 0 <= k < |records| ==> ParseLine(FormatLines(records)[k]) == Some(records[k])
  {
    var lines := FormatLines(records);
    forall k | 0 <= k < |records| ensures ScannableLine(lines[k]) && ParseLine(lines[k]) == Some(records[k]) {
      PlainLineScans(records[k]);
      LineRoundTrip(records[k], "");
      assert FormatLine(records[k]) + "" == FormatLine(records[k]);
    }
    ScanUnlines(lines);
  }

  // ---------------------------------------------------------------------------
  // Writing a record

  /** The file after a successful `writeConfig(a)` as evidently intended: the
      record's line is appended, and a missing file (`None`) is created first. */
  function AfterWrite(file: Option<string>, a: AnnounceInfo): (text: string)
    ensures file.Some? ==> |file.value| <= |text| && text[..|file.value|] == file.value
    ensures var n := |file.GetOr("")|; text[n..] == FormatLine(a) + "\n"
  {
    file.GetOr("") + FormatLine(a) + "\n"
  }

  /** The file after `writeConfig(a)` as written, when `os.OpenFile` succeeds.
      The flags are `O_APPEND|O_CREATE` with no write mode, which on Linux and
      other Unix systems opens the file read-only: a missing file is created
      empty, and the write itself fails with an error that is only logged. */
  function AfterWriteAsWritten(file: Option<string>, a: AnnounceInfo): (text: string)
    ensures file.Some? ==> text == file.value
    ensures file.None? ==> text == ""
  {
    file.GetOr("")
  }

  /** What a reload sees after a write: as written, the records already there and
      nothing new; as intended, those records followed by the new one. */
  lemma WriteConfigEffect(records: seq<AnnounceInfo>, a: AnnounceInfo)
    requires forall k :: 0 <= k < |records| ==> PlainRecord(records[k])
    requires PlainRecord(a)
    ensures ScanLines(AfterWriteAsWritten(Some(ConfigText(records)), a)) == FormatLines(records)
    ensures AfterWrite(Some(ConfigText(records)), a) == ConfigText(records + [a])
    ensures ScanLines(AfterWrite(Some(ConfigText(records)), a)) == FormatLines(records + [a])
  {
    ConfigRoundTrip(records);
    PlainLineScans(a);
    assert FormatLines(records + [a]) == FormatLines(records) + [FormatLine(a)];
    forall k | 0 <= k < |records| ensures ScannableLine(FormatLines(records)[k]) {
      PlainLineScans(records[k]);
    }
    ScanAppendLine(FormatLines(records), FormatLine(a));
  }

  /** A missing file is created empty by the as-written write, so a reload then
      loads nothing, while the intended write makes the record the only line. */
  lemma FirstConfigCommandIsLost(a: AnnounceInfo)
    requires PlainRecord(a)
    ensures ScanLines(AfterWriteAsWritten(None, a)) == []
    ensures ScanLines(AfterWrite(None, a)) == [FormatLine(a)]
  {
    WriteConfigEffect([], a);
    assert FormatLines([a]) == [FormatLine(a)];
  }

  // ---------------------------------------------------------------------------
  // Loading the records

  /** How a load ended: the file does not exist (early return), the scanner
      reached the end, or the given line (from 0) made the Go code panic. */
  datatype LoadStatus = Missing | Eof | Panicked(line: nat)

  /** The record slots after a load, and how it ended. */
  datatype Loaded = Loaded(info: seq<AnnounceInfo>, status: LoadStatus)

  /** Which slot line `k` is stored in: as written, `i := 0` sits inside the loop,
      so every line goes to slot 0; as evidently intended, line `k` goes to slot `k`. */
  datatype SlotRule = EveryLineToFirst | SlotPerLine

  function Slot(rule: SlotRule, k: nat): nat {
    match rule
    case EveryLineToFirst => 0
    case SlotPerLine => k
  }

  /** Line `k` parses and its slot exists, so loading it does not panic. */
  predicate LineFits(size: nat, lines: seq<string>, rule: SlotRule, k: nat)
    requires k < |lines|
  {
    ParseLine(lines[k]).Some? && Slot(rule, k) < size
  }

  /**
   * The loading loop over the scanned lines: each line is parsed and stored in
   * its slot; the first line that does not parse, or whose slot is out of range,
   * stops the load with a panic, leaving the slots written so far.
   */
  function Fill(info: seq<AnnounceInfo>, lines: seq<string>, rule: SlotRule): (r: Loaded)
    ensures |r.info| == |info|
    ensures r.status.Eof? || r.status.Panicked?
    ensures r.status.Eof? <==> forall k :: 0 <= k < |lines| ==> LineFits(|info|, lines, rule, k)
    ensures r.status.Panicked? ==>
      r.status.line < |lines| && !LineFits(|info|, lines, rule, r.status.line) &&
      forall k :: 0 <= k < r.status.line ==> LineFits(|info|, lines, rule, k)
    decreases |lines|
  {
    if lines == [] then Loaded(info, Eof)
    else
      var k := |lines| - 1;
      var prev := Fill(info, lines[..k], rule);
      assert forall j :: 0 <= j < k ==> LineFits(|info|, lines[..k], rule, j) == LineFits(|info|, lines, rule, j);
      if prev.status.Panicked? then prev
      else match ParseLine(lines[k])
        case None =>
          assert !LineFits(|info|, lines, rule, k);
          Loaded(prev.info, Panicked(k))
        case Some(a) =>
          if Slot(rule, k) < |info| then Loaded(prev.info[Slot(rule, k) := a], Eof)
          else
            assert !LineFits(|info|, lines, rule, k);
            Loaded(prev.info, Panicked(k))
  }

  /** `loadConfig` on the file's contents (`None`: the file does not exist). */
  function LoadFrom(file: Option<string>, info: seq<AnnounceInfo>, rule: SlotRule): (r: Loaded)
    ensures |r.info| == |info|
    ensures r.status.Missing? <==> file.None?
    ensures file.None? ==> r.info == info
  {
    match file
    case None => Loaded(info, Missing)
    case Some(text) => Fill(info, ScanLines(text), rule)
  }

  /** A missing or empty file leaves every slot as it was. */
  lemma NothingToLoad(info: seq<AnnounceInfo>, rule: SlotRule)
    ensures LoadFrom(None, info, rule) == Loaded(info, Missing)
    ensures LoadFrom(Some(""), info, rule) == Loaded(info, Eof)
  {
  }

  /** Once a prefix of the lines has panicked, the remaining lines are never read. */
  lemma {:induction false} PanicStops(info: seq<AnnounceInfo>, lines: seq<string>, rule: SlotRule, m: nat)
    requires m <= |lines| && Fill(info, lines[..m], rule).status.Panicked?
    ensures Fill(info, lines, rule) == Fill(info, lines[..m], rule)
    decreases |lines|
  {
    if m < |lines| {
      var k := |lines| - 1;
      assert lines[..k][..m] == lines[..m];
      PanicStops(info, lines[..k], rule, m);
    } else {
      assert lines[..m] == lines;
    }
  }

  /** A line that parses into an existing slot extends a load that has not
      panicked by storing its record there. */
  lemma FillStep(info: seq<AnnounceInfo>, lines: seq<string>, rule: SlotRule, n: nat)
    requires n < |lines| && Fill(info, lines[..n], rule).status.Eof?
    requires ParseLine(lines[n]).Some? && Slot(rule, n) < |info|
    ensures Fill(info, lines[..n + 1], rule) ==
      Loaded(Fill(info, lines[..n], rule).info[Slot(rule, n) := ParseLine(lines[n]).value], Eof)
  {
    var upto := lines[..n + 1];
    assert upto[..n] == lines[..n] && upto[n] == lines[n];
  }

  /** A line that does not parse, or whose slot is out of range, ends a load
      that has not panicked yet with a panic at that line. */
  lemma FillStops(info: seq<AnnounceInfo>, lines: seq<string>, rule: SlotRule, n: nat)
    requires n < |lines| && Fill(info, lines[..n], rule).status.Eof?
    requires ParseLine(lines[n]).None? || Slot(rule, n) >= |info|
    ensures Fill(info, lines, rule) == Loaded(Fill(info, lines[..n], rule).info, Panicked(n))
  {
    FillPanicsAt(info, lines, rule, n);
    PanicStops(info, lines, rule, n + 1);
  }

  /** The single step of FillStops: the lines up to and including `n`. */
  lemma FillPanicsAt(info: seq<AnnounceInfo>, lines: seq<string>, rule: SlotRule, n: nat)
    requires n < |lines| && Fill(info, lines[..n], rule).status.Eof?
    requires ParseLine(lines[n]).None? || Slot(rule, n) >= |info|
    ensures Fill(info, lines[..n + 1], rule) == Loaded(Fill(info, lines[..n], rule).info, Panicked(n))
  {
    var upto := lines[..n + 1];
    assert upto[..n] == lines[..n] && upto[n] == lines[n];
  }

  /** As written, when every line parses, slot 0 ends up holding the last line and
      the other slots are untouched: each line overwrites the one before it. */
  lemma {:induction false} LastLineWins(info: seq<AnnounceInfo>, lines: seq<string>)
    requires |info| >= 1 && |lines| >= 1
    requires forall k :: 0 <= k < |lines| ==> ParseLine(lines[k]).Some?
    ensures Fill(info, lines, EveryLineToFirst) == Loaded(info[0 := ParseLine(lines[|lines| - 1]).value], Eof)
    decreases |lines|
  {
    var k := |lines| - 1;
    if k > 0 {
      LastLineWins(info, lines[..k]);
      assert lines[..k][k - 1] == lines[k - 1];
    }
  }

  /** As intended, when every line parses and there are at most as many lines as
      slots, slot `k` holds line `k` and the slots past the last line are untouched. */
  lemma {:induction false} LinesFillSlotsInOrder(info: seq<AnnounceInfo>, lines: seq<string>)
    requires |lines| <= |info|
    requires forall k :: 0 <= k < |lines| ==> ParseLine(lines[k]).Some?
    ensures Fill(info, lines, SlotPerLine).status == Eof
    ensures forall k :: 0 <= k < |lines| ==> Fill(info, lines, SlotPerLine).info[k] == ParseLine(lines[k]).value
    ensures Fill(info, lines, SlotPerLine).info[|lines|..] == info[|lines|..]
    decreases |lines|
  {
    if lines != [] {
      var k := |lines| - 1;
      LinesFillSlotsInOrder(info, lines[..k]);
      var prev := Fill(info, lines[..k], SlotPerLine);
      assert forall j :: 0 <= j < k ==> lines[..k][j] == lines[j];
      assert Fill(info, lines, SlotPerLine).info == prev.info[k := ParseLine(lines[k]).value];
    }
  }

  /** Reloading a file written from plain records, as written: only the last
      record is kept, in slot 0. */
  lemma AsWrittenReloadKeepsOnlyLast(records: seq<AnnounceInfo>, info: seq<AnnounceInfo>)
    requires |info| >= 1 && |records| >= 1
    requires forall k :: 0 <= k < |records| ==> PlainRecord(records[k])
    ensures LoadFrom(Some(ConfigText(records)), info, EveryLineToFirst) ==
      Loaded(info[0 := records[|records| - 1]], Eof)
  {
    ConfigRoundTrip(records);
    LastLineWins(info, FormatLines(records));
  }

  /** Reloading a file written from at most five plain records, as intended: the
      slots hold the records in order, followed by the untouched slots. */
  lemma ReloadKeepsEveryRecord(records: seq<AnnounceInfo>, info: seq<AnnounceInfo>)
    requires |records| <= |info|
    requires forall k :: 0 <= k < |records| ==> PlainRecord(records[k])
    ensures LoadFrom(Some(ConfigText(records)), info, SlotPerLine) ==
      Loaded(records + info[|records|..], Eof)
  {
    ConfigRoundTrip(records);
    var lines := FormatLines(records);
    LinesFillSlotsInOrder(info, lines);
    var r := Fill(info, lines, SlotPerLine);
    assert r.info == r.info[..|records|] + r.info[|records|..];
    assert r.info[..|records|] == records;
  }

  /** Reloading a file with more lines than slots stops with a panic at the sixth
      line under the intended rule, after filling all five slots. */
  lemma TooManyLinesPanic(info: seq<AnnounceInfo>, lines: seq<string>)
    requires |info| == Slots && |lines| > Slots
    requires forall k :: 0 <= k < |lines| ==> ParseLine(lines[k]).Some?
    ensures Fill(info, lines, SlotPerLine).status == Panicked(Slots)
  {
    var r := Fill(info, lines, SlotPerLine);
    assert !LineFits(|info|, lines, SlotPerLine, Slots);
  }

  // ---------------------------------------------------------------------------
  // Secrets

  /** The three secrets read at start-up. */
  datatype Secrets = Secrets(botToken: string, clientId: string, clientSecret: string)

  /** The line separator of the secrets file. */
  const CRLF: string := "\r\n"

  /**
   * `getSecrets`: split the file on CRLF and take the first three pieces as
   * bot token, Twitch client ID and client secret. A file that cannot be read
   * stops the process (`log.Fatal`), and fewer than three pieces panic: both
   * are `None`.
   */
  function GetSecrets(file: Option<string>): (r: Option<Secrets>)
    ensures file.None? ==> r.None?
    ensures file.Some? ==> (r.Some? <==>
      exists i: nat, j: nat :: i + 2 <= j && OccursAt(file.value, CRLF, i) && OccursAt(file.value, CRLF, j))
  {
    match file
    case None => None
    case Some(data) =>
      var s := Split(data, CRLF);
      SplitAtLeastThree(data, CRLF);
      if |s| < 3 then None else Some(Secrets(s[0], s[1], s[2]))
  }

  /** Whatever `GetSecrets` returns is read from the front of the file: no value
      contains a CRLF, and the three values joined by CRLF are a prefix of the
      file, followed by its end or by a CRLF. */
  lemma SecretsShape(file: Option<string>)
    ensures GetSecrets(file).Some? ==>
      var sec := GetSecrets(file).value;
      forall m: nat :: !OccursAt(sec.botToken, CRLF, m) && !OccursAt(sec.clientId, CRLF, m) &&
        !OccursAt(sec.clientSecret, CRLF, m)
    ensures GetSecrets(file).Some? ==>
      var sec := GetSecrets(file).value;
      var t := sec.botToken + CRLF + sec.clientId + CRLF + sec.clientSecret;
      |t| <= |file.value| && file.value[..|t|] == t &&
      (|t| == |file.value| || (|t| + 2 <= |file.value| && file.value[|t|..|t| + 2] == CRLF))
  {
    if file.Some? {
      var s := Split(file.value, CRLF);
      if |s| >= 3 {
        SplitPiecesFree(file.value, CRLF);
        JoinedPrefix(file.value, CRLF, 3);
        assert s[..3] == [s[0], s[1], s[2]];
        JoinThree(s[0], s[1], s[2], CRLF);
      }
    }
  }

  /** Round trip: a secrets file holding the three values on CRLF-separated lines
      (fields without carriage returns, anything after a further CRLF ignored)
      yields exactly those values. */
  lemma SecretsRoundTrip(sec: Secrets, extra: string)
    requires '\r' !in sec.botToken && '\r' !in sec.clientId && '\r' !in sec.clientSecret
    requires extra == "" || (|extra| >= 2 && extra[..2] == CRLF)
    ensures GetSecrets(Some(sec.botToken + CRLF + sec.clientId + CRLF + sec.clientSecret + extra)) == Some(sec)
  {
    assert CRLF[0] == '\r';
    SplitThree(sec.botToken, sec.clientId, sec.clientSecret, extra, CRLF);
  }

  // ---------------------------------------------------------------------------
  // Chat commands

  /** A Discord message as the command handler sees it. */
  datatype ChatMessage = ChatMessage(id: string, channelId: string, guildId: string,
                                     authorId: string, authorIsBot: bool, content: string)

  /** A call the handler makes on the Discord session. */
  datatype DiscordCall = Send(channelId: string, content: string) | Delete(channelId: string, messageId: string)

  const RepoCommand: string := "+repo"
  const InviteCommand: string := "+invite"
  const LoadCommand: string := "+loadConfig"
  const ConfigCommand: string := "+config"

  const RepoUrl: string := "https://github.com/jcav2011/PaintBot"
  const InviteUrl: string := "https://discordapp.com/api/oauth2/authorize?client_id=598318983485325342&permissions=11264&scope=bot"
  const ConfigWritten: string := "Wrote info to config"

  /** The first space-separated word of a message: the text up to the first
      space, or all of it when there is none. */
  function FirstWord(content: string): (w: string)
    ensures ' ' !in w
    ensures |w| <= |content| && content[..|w|] == w
    ensures |w| == |content| || content[|w|] == ' '
  {
    SplitOnChar(content, ' ');
    JoinedPrefix(content, " ", 1);
    assert Split(content, " ")[..1] == [Split(content, " ")[0]];
    Split(content, " ")[0]
  }

  /** Dispatch is by exact match: a space-free command word is the first word of
      a message exactly when the message is that word, alone or followed by a space. */
  lemma FirstWordIsExact(content: string, command: string)
    requires ' ' !in command
    ensures FirstWord(content) == command <==>
      (content == command || (|content| > |command| && content[..|command|] == command && content[|command|] == ' '))
  {
    var w := FirstWord(content);
    if content == command {
      SplitAfterPiece(command, "", " ");
      assert command + "" == command;
    } else if |content| > |command| && content[..|command|] == command && content[|command|] == ' ' {
      var rest := content[|command|..];
      assert content == command + rest;
      SplitAfterPiece(command, rest, " ");
    }
  }

  /** The message was written by this bot or by any bot, so it is ignored. */
  predicate FromBot(botId: string, msg: ChatMessage) {
    msg.authorId == botId || msg.authorIsBot
  }

  // ---------------------------------------------------------------------------
  // Token validation

  /** A status code in the 2xx range. */
  predicate IsSuccess(status: int) {
    200 <= status && status <= 299
  }

  /** The token after `validateToken`: kept when the validation call answers with
      a 2xx status, otherwise replaced by the one `generateToken` fetches. */
  function TokenAfterValidation(status: int, current: string, regenerated: string): (t: string)
    ensures t == current || t == regenerated
    ensures t == current <==> IsSuccess(status) || regenerated == current
  {
    if IsSuccess(status) then current else regenerated
  }

  // ---------------------------------------------------------------------------
  // The bot's global state

  /**
   * The package-level state main.go keeps: the five record slots `info`, the
   * config file on disk (`None` while it does not exist), the bot's own user ID
   * and the Twitch token.
   */
  class Bot {
    var info: array<AnnounceInfo>
    var cfgFile: Option<string>
    var botId: string
    var twitchToken: string

    ghost predicate Valid()
      reads this
    {
      info.Length == Slots
    }

    /** A bot whose slots all hold the zero record. */
    constructor (file: Option<string>, id: string, token: string)
      ensures Valid() && fresh(info)
      ensures info[..] == seq(Slots, _ => EmptyInfo)
      ensures cfgFile == file && botId == id && twitchToken == token
    {
      info := new AnnounceInfo[Slots](_ => EmptyInfo);
      cfgFile, botId, twitchToken := file, id, token;
    }

    /** `writeConfig` as written. `openFails` says whether `os.OpenFile` fails
        (the directory cannot be written to, say): then `log.Fatal` ends the
        process, `fatal` is true and the file is as it was. Otherwise the file
        ends up existing, with unchanged contents. */
    method WriteConfigAsWritten(a: AnnounceInfo, openFails: bool) returns (fatal: bool)
      modifies this`cfgFile
      ensures fatal == openFails
      ensures fatal ==> cfgFile == old(cfgFile)
      ensures !fatal ==> cfgFile == Some(AfterWriteAsWritten(old(cfgFile), a))
    {
      if openFails {
        return true;
      }
      cfgFile := Some(cfgFile.GetOr(""));
      return false;
    }

    /** `writeConfig` as intended: unless `os.OpenFile` fails, which ends the
        process with `log.Fatal`, the record's line is appended to the file. */
    method WriteConfig(a: AnnounceInfo, openFails: bool) returns (fatal: bool)
      modifies this`cfgFile
      ensures fatal == openFails
      ensures fatal ==> cfgFile == old(cfgFile)
      ensures !fatal ==> cfgFile == Some(AfterWrite(old(cfgFile), a))
    {
      if openFails {
        return true;
      }
      cfgFile := Some(cfgFile.GetOr("") + FormatLine(a) + "\n");
      return false;
    }

    /** `loadConfig` as written, with `i := 0` inside the loop. */
    method LoadConfig() returns (status: LoadStatus)
      requires Valid()
      modifies info
      ensures Loaded(info[..], status) == LoadFrom(cfgFile, old(info[..]), EveryLineToFirst)
    {
      if cfgFile.None? {
        return Missing;
      }
      var lines := ScanLines(cfgFile.value);
      var n := 0;
      while n < |lines|
        invariant 0 <= n <= |lines|
        invariant Fill(old(info[..]), lines[..n], EveryLineToFirst) == Loaded(info[..], Eof)
      {
        var i := 0;
        var s := Split(lines[n], " ");
        if |s| < 3 {
          assert ParseLine(lines[n]).None?;
          FillStops(old(info[..]), lines, EveryLineToFirst, n);
          return Panicked(n);
        }
        var a := AnnounceInfo(s[0], s[1], s[2]);
        assert ParseLine(lines[n]) == Some(a);
        FillStep(old(info[..]), lines, EveryLineToFirst, n);
        ghost var before := info[..];
        info[i] := a;
        assert info[..] == before[i := a];
        n := n + 1;
      }
      assert lines[..n] == lines;
      return Eof;
    }

    /** `loadConfig` as intended: the slot index advances with each line, and a
        sixth line indexes past the array and panics. */
    method LoadConfigCorrected() returns (status: LoadStatus)
      requires Valid()
      modifies info
      ensures Loaded(info[..], status) == LoadFrom(cfgFile, old(info[..]), SlotPerLine)
    {
      if cfgFile.None? {
        return Missing;
      }
      var lines := ScanLines(cfgFile.value);
      var i := 0;
      while i < |lines|
        invariant 0 <= i <= |lines|
        invariant Fill(old(info[..]), lines[..i], SlotPerLine) == Loaded(info[..], Eof)
      {
        var s := Split(lines[i], " ");
        if |s| < 3 || i >= info.Length {
          assert ParseLine(lines[i]).None? || Slot(SlotPerLine, i) >= info.Length;
          FillStops(old(info[..]), lines, SlotPerLine, i);
          return Panicked(i);
        }
        var a := AnnounceInfo(s[0], s[1], s[2]);
        assert ParseLine(lines[i]) == Some(a);
        FillStep(old(info[..]), lines, SlotPerLine, i);
        ghost var before := info[..];
        info[i] := a;
        assert info[..] == before[i := a];
        i := i + 1;
      }
      assert lines[..i] == lines;
      return Eof;
    }

    /** `validateToken`, given the status of the validation call and the token a
        fresh `generateToken` would obtain. */
    method ValidateToken(status: int, regenerated: string)
      modifies this`twitchToken
      ensures twitchToken == TokenAfterValidation(status, old(twitchToken), regenerated)
    {
      if status >= 200 && status <= 299 {
        return;
      }
      twitchToken := regenerated;
    }

    /**
     * `commandHandler`: returns the Discord calls made, in order, and whether the
     * process stopped (a `+config` without a name or a reload panics; a config
     * file that `os.OpenFile` cannot open, as `openFails` says, ends it with
     * `log.Fatal`). Reloads and writes use the corrected `loadConfig` and
     * `writeConfig`.
     */
    method CommandHandler(msg: ChatMessage, openFails: bool) returns (calls: seq<DiscordCall>, crashed: bool)
      requires Valid()
      modifies this`cfgFile, info
      ensures Valid()
      ensures FromBot(botId, msg) ==>
        calls == [] && !crashed && cfgFile == old(cfgFile) && info[..] == old(info[..])
      ensures !FromBot(botId, msg) && FirstWord(msg.content) == RepoCommand ==>
        calls == [Send(msg.channelId, RepoUrl)] && !crashed &&
        cfgFile == old(cfgFile) && info[..] == old(info[..])
      ensures !FromBot(botId, msg) && FirstWord(msg.content) == InviteCommand ==>
        calls == [Send(msg.channelId, InviteUrl)] && !crashed &&
        cfgFile == old(cfgFile) && info[..] == old(info[..])
      ensures !FromBot(botId, msg) && FirstWord(msg.content) == LoadCommand ==>
        var r := LoadFrom(old(cfgFile), old(info[..]), SlotPerLine);
        cfgFile == old(cfgFile) && info[..] == r.info && crashed == r.status.Panicked? &&
        calls == (if crashed then [] else [Delete(msg.channelId, msg.id)])
      ensures !FromBot(botId, msg) && FirstWord(msg.content) == ConfigCommand ==>
        var words := Split(msg.content, " ");
        if |words| < 2 || openFails then
          calls == [] && crashed && cfgFile == old(cfgFile) && info[..] == old(info[..])
        else
          var file := Some(AfterWrite(old(cfgFile), AnnounceInfo(msg.guildId, msg.channelId, words[1])));
          var r := LoadFrom(file, old(info[..]), SlotPerLine);
          cfgFile == file && info[..] == r.info && crashed == r.status.Panicked? &&
          calls == (if crashed then [] else [Send(msg.channelId, ConfigWritten), Delete(msg.channelId, msg.id)])
      ensures !FromBot(botId, msg) && FirstWord(msg.content) !in {RepoCommand, InviteCommand, LoadCommand, ConfigCommand} ==>
        calls == [] && !crashed && cfgFile == old(cfgFile) && info[..] == old(info[..])
    {
      calls, crashed := [], false;
      if msg.authorId == botId || msg.authorIsBot {
        return;
      }
      var m := Split(msg.content, " ");
      if m[0] == RepoCommand {
        calls := calls + [Send(msg.channelId, RepoUrl)];
      }
      if m[0] == InviteCommand {
        calls := calls + [Send(msg.channelId, InviteUrl)];
      }
      if m[0] == LoadCommand {
        var status := LoadConfigCorrected();
        if status.Panicked? {
          crashed := true;
          return;
        }
        calls := calls + [Delete(msg.channelId, msg.id)];
      }
      if m[0] == ConfigCommand {
        if |m| < 2 {
          crashed := true;
          return;
        }
        var fatal := WriteConfig(AnnounceInfo(msg.guildId, msg.channelId, m[1]), openFails);
        if fatal {
          crashed := true;
          return;
        }
        var status := LoadConfigCorrected();
        if status.Panicked? {
          crashed := true;
          return;
        }
        calls := calls + [Send(msg.channelId, ConfigWritten), Delete(msg.channelId, msg.id)];
      }
    }
  }
}
