/**
 * The system-wide settings and the reader of the configuration file
 * (utils/NetworkConfig.java). The file is given as its sequence of lines; a
 * missing file is the empty sequence.
 */
module Configuration {
  import opened Wrappers
  import opened JavaStrings

  const BROADCAST_ADDRESS: string := "255.255.255.255"

  /** The value of every setting at one moment. */
  datatype Config = Config(
    slaveDataDirectory: string,
    serverPort: int,
    slavePort: int,
    broadcastPort: int,
    connectionTimeout: int,
    broadcastInterval: int,
    slaveHealthCheckInterval: int,
    slaveTimeout: int,
    discoverSlavesMessage: string,
    readySlavesMessage: string,
    bufferSize: int)

  /** The settings before any file is read. */
  const Defaults: Config := Config(
    "./slaveStorage", 5000, 5001, 7777, 5000, 2500, 30000, 60000,
    "DISCOVER_SLAVE", "READY_SLAVE", 8192)

  /** The keys the reader recognises, once upper-cased. */
  datatype Key =
    | SlaveDataDirectoryKey
    | ServerPortKey
    | SlavePortKey
    | BroadcastPortKey
    | BufferSizeKey
    | ConnectionTimeoutKey
    | BroadcastIntervalKey
    | HealthCheckIntervalKey
    | DiscoverMessageKey
    | UnknownKey
  {
    /** The value goes through Integer.parseInt. */
    predicate IsInt() {
      !(SlaveDataDirectoryKey? || DiscoverMessageKey? || UnknownKey?)
    }

    /** An integer key whose parsed value is taken whatever its sign. */
    predicate IsUnguardedInt() {
      IsInt() && !(BufferSizeKey? || ConnectionTimeoutKey?)
    }

    /** The parsed value `v` is stored: the buffer size and the timeout take only positive values. */
    predicate Accepts(v: int) {
      IsInt() && (IsUnguardedInt() || v > 0)
    }

    /** The value is stored as text. */
    predicate IsText() {
      SlaveDataDirectoryKey? || DiscoverMessageKey?
    }
  }

  /** The text of a key as the file spells it (after upper-casing). */
  function KeyOf(name: string): Key {
    if name == "SLAVE_DATA_DIRECTORY" then SlaveDataDirectoryKey
    else if name == "SERVER_PORT" then ServerPortKey
    else if name == "SLAVE_PORT" then SlavePortKey
    else if name == "BROADCAST_PORT" then BroadcastPortKey
    else if name == "BUFFER_SIZE" then BufferSizeKey
    else if name == "CONNECTION_TIMEOUT" then ConnectionTimeoutKey
    else if name == "BROADCAST_INTERVAL" then BroadcastIntervalKey
    else if name == "SLAVE_HEALTH_CHECK_INTERVAL" then HealthCheckIntervalKey
    else if name == "DISCOVER_SLAVES_MESSAGE" then DiscoverMessageKey
    else UnknownKey
  }

  /** Blank lines and comment lines. */
  predicate IsSkipped(line: string) {
    Trim(line) == "" || StartsWith(Trim(line), "#")
  }

  /**
   * The key and value a line carries: semicolons become spaces, the line is
   * trimmed and split on '='; the key is the first piece trimmed and upper-cased,
   * the value the second piece trimmed. None for skipped lines and for lines
   * with fewer than two pieces.
   */
  function Setting(line: string): Option<(string, string)> {
    if IsSkipped(line) then None
    else
      var parts := Split(Trim(ReplaceChar(line, ';', ' ')), "=");
      if |parts| < 2 then None
      else Some((ToUpper(Trim(parts[0])), Trim(parts[1])))
  }

  /** One setting applied; integer keys change nothing when the value does not parse. */
  function Assign(c: Config, key: Key, value: string): Config {
    match key
    case SlaveDataDirectoryKey => c.(slaveDataDirectory := value)
    case DiscoverMessageKey => c.(discoverSlavesMessage := value)
    case UnknownKey => c
    case _ =>
      match ParseInt(value)
      case None => c
      case Some(v) =>
        match key
        case ServerPortKey => c.(serverPort := v)
        case SlavePortKey => c.(slavePort := v)
        case BroadcastPortKey => c.(broadcastPort := v)
        case BufferSizeKey => if v > 0 then c.(bufferSize := v) else c
        case ConnectionTimeoutKey => if v > 0 then c.(connectionTimeout := v) else c
        case BroadcastIntervalKey => c.(broadcastInterval := v)
        case _ => c.(slaveHealthCheckInterval := v)
  }

  /** The effect of the setting a line carries, if any. */
  function ApplySetting(c: Config, setting: Option<(string, string)>): Config {
    match setting
    case None => c
    case Some((name, value)) => Assign(c, KeyOf(name), value)
  }

  /** The effect of one line of the file. */
  function ApplyLine(c: Config, line: string): Config {
    ApplySetting(c, Setting(line))
  }

  /** The effect of the lines, first to last. */
  function ApplyLines(c: Config, lines: seq<string>): Config {
    if lines == [] then c else ApplyLine(ApplyLines(c, lines[..|lines| - 1]), lines[|lines| - 1])
  }

  /** The integer field an integer key sets. */
  function IntField(c: Config, key: Key): int
    requires key.IsInt()
  {
    match key
    case ServerPortKey => c.serverPort
    case SlavePortKey => c.slavePort
    case BroadcastPortKey => c.broadcastPort
    case BufferSizeKey => c.bufferSize
    case ConnectionTimeoutKey => c.connectionTimeout
    case BroadcastIntervalKey => c.broadcastInterval
    case _ => c.slaveHealthCheckInterval
  }

  /** The text field a text key sets. */
  function TextField(c: Config, key: Key): string
    requires key.IsText()
  {
    if key.SlaveDataDirectoryKey? then c.slaveDataDirectory else c.discoverSlavesMessage
  }

  /** The value parsed from the last line that sets `key` to an integer it accepts, if any. */
  function LastIntFor(lines: seq<string>, key: Key): Option<int> {
    if lines == [] then None
    else
      var setting := Setting(lines[|lines| - 1]);
      if setting.Some? && KeyOf(setting.value.0) == key && ParseInt(setting.value.1).Some? && key.Accepts(ParseInt(setting.value.1).value)
      then ParseInt(setting.value.1)
      else LastIntFor(lines[..|lines| - 1], key)
  }

  /** The value of the last line that sets `key`, if any. */
  function LastTextFor(lines: seq<string>, key: Key): Option<string> {
    if lines == [] then None
    else
      var setting := Setting(lines[|lines| - 1]);
      if setting.Some? && KeyOf(setting.value.0) == key
      then Some(setting.value.1)
      else LastTextFor(lines[..|lines| - 1], key)
  }

  /** Number of fields in which two configurations differ. */
  function FieldsChanged(a: Config, b: Config): nat {
    (if a.slaveDataDirectory != b.slaveDataDirectory then 1 else 0)
    + (if a.serverPort != b.serverPort then 1 else 0)
    + (if a.slavePort != b.slavePort then 1 else 0)
    + (if a.broadcastPort != b.broadcastPort then 1 else 0)
    + (if a.connectionTimeout != b.connectionTimeout then 1 else 0)
    + (if a.broadcastInterval != b.broadcastInterval then 1 else 0)
    + (if a.slaveHealthCheckInterval != b.slaveHealthCheckInterval then 1 else 0)
    + (if a.slaveTimeout != b.slaveTimeout then 1 else 0)
    + (if a.discoverSlavesMessage != b.discoverSlavesMessage then 1 else 0)
    + (if a.readySlavesMessage != b.readySlavesMessage then 1 else 0)
    + (if a.bufferSize != b.bufferSize then 1 else 0)
  }

  predicate ValidPort(port: int) {
    0 < port <= 65535
  }

  // ---------------------------------------------------------------- the static fields

  /** The static fields of the configuration class and the file reader that sets them. */
  class NetworkConfig {
    var slaveDataDirectory: string
    var defaultServerPort: int
    var defaultSlavePort: int
    var broadcastPort: int
    var connectionTimeout: int
    var broadcastInterval: int
    var slaveHealthCheckInterval: int
    var slaveTimeout: int
    var discoverSlavesMessage: string
    var readySlavesMessage: string
    var bufferSize: int

    function Current(): Config
      reads this
    {
      Config(slaveDataDirectory, defaultServerPort, defaultSlavePort, broadcastPort,
             connectionTimeout, broadcastInterval, slaveHealthCheckInterval, slaveTimeout,
             discoverSlavesMessage, readySlavesMessage, bufferSize)
    }

    constructor ()
      ensures Current() == Defaults
    {
      slaveDataDirectory := "./slaveStorage";
      defaultServerPort := 5000;
      defaultSlavePort := 5001;
      broadcastPort := 7777;
      connectionTimeout := 5000;
      broadcastInterval := 2500;
      slaveHealthCheckInterval := 30000;
      slaveTimeout := 60000;
      discoverSlavesMessage := "DISCOVER_SLAVE";
      readySlavesMessage := "READY_SLAVE";
      bufferSize := 8192;
    }

    /**
     * Reads the file line by line, updating at most one field per line, then
     * checks both ports; the check only reports and never changes a port.
     */
    method LoadConfigurations(lines: seq<string>) returns (serverPortFlagged: bool, slavePortFlagged: bool)
      modifies this
      ensures Current() == ApplyLines(old(Current()), lines)
      ensures serverPortFlagged == !ValidPort(defaultServerPort)
      ensures slavePortFlagged == !ValidPort(defaultSlavePort)
    {
      var i := 0;
      while i < |lines|
        invariant 0 <= i <= |lines|
        invariant Current() == ApplyLines(old(Current()), lines[..i])
      {
        ghost var before := Current();
        assert ApplyLines(old(Current()), lines[..i + 1]) == ApplyLine(before, lines[i]) by {
          assert lines[..i + 1][..i] == lines[..i];
        }
        var line := lines[i];
        i := i + 1;
        if Trim(line) == "" || StartsWith(Trim(line), "#") {
          assert Setting(line) == None;
          continue;
        }
        line := Trim(ReplaceChar(line, ';', ' '));
        var parts := Split(line, "=");
        if |parts| < 2 {
          assert Setting(lines[i - 1]) == None;
          continue;
        }
        var key := ToUpper(Trim(parts[0]));
        var value := Trim(parts[1]);
        assert Setting(lines[i - 1]) == Some((key, value));
        Set(KeyOf(key), value);
      }
      assert lines[..|lines|] == lines;
      serverPortFlagged := ValidatePort(defaultServerPort);
      slavePortFlagged := ValidatePort(defaultSlavePort);
    }

    /** The switch on the key: one field updated, integer values parsed first. */
    method Set(key: Key, value: string)
      modifies this
      ensures Current() == Assign(old(Current()), key, value)
    {
      match key {
        case SlaveDataDirectoryKey =>
          slaveDataDirectory := value;
        case ServerPortKey =>
          var v := ParseInt(value);
          if v.Some? { defaultServerPort := v.value; }
        case SlavePortKey =>
          var v := ParseInt(value);
          if v.Some? { defaultSlavePort := v.value; }
        case BroadcastPortKey =>
          var v := ParseInt(value);
          if v.Some? { broadcastPort := v.value; }
        case BufferSizeKey =>
          var v := ParseInt(value);
          if v.Some? && v.value > 0 { bufferSize := v.value; }
        case ConnectionTimeoutKey =>
          var v := ParseInt(value);
          if v.Some? && v.value > 0 { connectionTimeout := v.value; }
        case BroadcastIntervalKey =>
          var v := ParseInt(value);
          if v.Some? { broadcastInterval := v.value; }
        case HealthCheckIntervalKey =>
          var v := ParseInt(value);
          if v.Some? { slaveHealthCheckInterval := v.value; }
        case DiscoverMessageKey =>
          discoverSlavesMessage := value;
        case UnknownKey =>
      }
    }

    /** Reports a port outside 1..65535; the stored value is left as it is. */
    static method ValidatePort(port: int) returns (flagged: bool)
      ensures flagged <==> !ValidPort(port)
    {
      flagged := port <= 0 || port > 65535;
    }
  }

  // ---------------------------------------------------------------- properties of the reader

  /** Blank and comment lines change no field. */
  lemma SkippedLineChangesNothing(c: Config, line: string)
    requires IsSkipped(line)
    ensures ApplyLine(c, line) == c
  {
  }

  /** An unknown key, or an integer key whose value does not parse, changes no field. */
  lemma IgnoredSettingChangesNothing(c: Config, line: string, name: string, value: string)
    requires Setting(line) == Some((name, value))
    requires KeyOf(name) == UnknownKey || (KeyOf(name).IsInt() && ParseInt(value).None?)
    ensures ApplyLine(c, line) == c
  {
    IgnoredKeyChangesNothing(c, KeyOf(name), value);
  }

  lemma IgnoredKeyChangesNothing(c: Config, key: Key, value: string)
    requires key == UnknownKey || (key.IsInt() && ParseInt(value).None?)
    ensures Assign(c, key, value) == c
  {
  }

  /** A line changes at most one field. */
  lemma AtMostOneFieldPerLine(c: Config, line: string)
    ensures FieldsChanged(c, ApplyLine(c, line)) <= 1
  {
    SettingChangesAtMostOne(c, Setting(line));
  }

  lemma SettingChangesAtMostOne(c: Config, setting: Option<(string, string)>)
    ensures FieldsChanged(c, ApplySetting(c, setting)) <= 1
  {
  }

  /** What one setting can and cannot change. */
  lemma SettingEffect(c: Config, setting: Option<(string, string)>)
    ensures ApplySetting(c, setting).slaveTimeout == c.slaveTimeout
    ensures ApplySetting(c, setting).readySlavesMessage == c.readySlavesMessage
    ensures c.bufferSize > 0 ==> ApplySetting(c, setting).bufferSize > 0
    ensures c.connectionTimeout > 0 ==> ApplySetting(c, setting).connectionTimeout > 0
    ensures InInt32(c.slavePort) ==> InInt32(ApplySetting(c, setting).slavePort)
    ensures forall key: Key | key.IsUnguardedInt() ::
      IntField(ApplySetting(c, setting), key) ==
        if setting.Some? && KeyOf(setting.value.0) == key && ParseInt(setting.value.1).Some?
        then ParseInt(setting.value.1).value
        else IntField(c, key)
  {
  }

  /**
   * What one setting does to the field of one key: an integer key takes a
   * parsed value it accepts, a text key takes the value as it is, and any
   * other setting leaves the field alone.
   */
  lemma SettingEffectOn(c: Config, setting: Option<(string, string)>, key: Key)
    ensures key.IsInt() ==>
      IntField(ApplySetting(c, setting), key) ==
        if setting.Some? && KeyOf(setting.value.0) == key && ParseInt(setting.value.1).Some? && key.Accepts(ParseInt(setting.value.1).value)
        then ParseInt(setting.value.1).value
        else IntField(c, key)
    ensures key.IsText() ==>
      TextField(ApplySetting(c, setting), key) ==
        if setting.Some? && KeyOf(setting.value.0) == key then setting.value.1 else TextField(c, key)
  {
  }

  /** The buffer size and the connection timeout never become zero or negative. */
  lemma {:induction false} GuardedFieldsStayPositive(c: Config, lines: seq<string>)
    requires c.bufferSize > 0 && c.connectionTimeout > 0
    ensures ApplyLines(c, lines).bufferSize > 0 && ApplyLines(c, lines).connectionTimeout > 0
  {
    if lines != [] {
      GuardedFieldsStayPositive(c, lines[..|lines| - 1]);
      SettingEffect(ApplyLines(c, lines[..|lines| - 1]), Setting(lines[|lines| - 1]));
    }
  }

  /** The file cannot change the node timeout or the announcement tag. */
  lemma {:induction false} FixedFieldsNeverChange(c: Config, lines: seq<string>)
    ensures ApplyLines(c, lines).slaveTimeout == c.slaveTimeout
    ensures ApplyLines(c, lines).readySlavesMessage == c.readySlavesMessage
  {
    if lines != [] {
      FixedFieldsNeverChange(c, lines[..|lines| - 1]);
      SettingEffect(ApplyLines(c, lines[..|lines| - 1]), Setting(lines[|lines| - 1]));
    }
  }

  /**
   * The last line that sets a key decides its field: for an integer key the
   * last line whose value parses to an integer the key accepts (any integer,
   * or a positive one for the buffer size and the timeout), for a text key
   * the last line that names it. With no such line the field keeps its value.
   */
  lemma {:induction false} LastLineWins(c: Config, lines: seq<string>, key: Key)
    ensures key.IsInt() ==> IntField(ApplyLines(c, lines), key) == LastIntFor(lines, key).GetOr(IntField(c, key))
    ensures key.IsText() ==> TextField(ApplyLines(c, lines), key) == LastTextFor(lines, key).GetOr(TextField(c, key))
  {
    if lines != [] {
      LastLineWins(c, lines[..|lines| - 1], key);
      SettingEffectOn(ApplyLines(c, lines[..|lines| - 1]), Setting(lines[|lines| - 1]), key);
    }
  }

  /** Every slave port read from the file is a 32-bit integer. */
  lemma {:induction false} LoadedSlavePortIsInt32(c: Config, lines: seq<string>)
    requires InInt32(c.slavePort)
    ensures InInt32(ApplyLines(c, lines).slavePort)
  {
    if lines != [] {
      LoadedSlavePortIsInt32(c, lines[..|lines| - 1]);
      SettingEffect(ApplyLines(c, lines[..|lines| - 1]), Setting(lines[|lines| - 1]));
    }
  }

  /** A piece of text with no blank at either end and no '=' or ';' inside. */
  predicate IsWord(w: string) {
    |w| > 0 && w[0] > ' ' && w[|w| - 1] > ' ' && '=' !in w && ';' !in w
  }

  /** Trimming leaves a word alone. */
  lemma WordIsTrimmed(w: string)
    requires IsWord(w)
    ensures Trim(w) == w
  {
    assert TrimLeft(w) == w;
  }

  /** A line whose trimmed text starts with a character other than '#' is not skipped. */
  lemma NotSkipped(line: string)
    requires |Trim(line)| > 0 && Trim(line)[0] != '#'
    ensures !IsSkipped(line)
  {
    var t := Trim(line);
    assert t[..1] == [t[0]];
  }

  /** Pieces up to a non-empty one survive the removal of trailing empty pieces. */
  lemma KeptUpTo(ps: seq<string>, i: nat)
    requires i < |ps| && ps[i] != ""
    ensures |DropTrailingEmpty(ps)| > i
  {
  }

  /** `key=value` followed by nothing or by '=' and more splits into key, value, ... */
  lemma SplitKeyValue(key: string, value: string, tail: string)
    requires '=' !in key && '=' !in value && value != []
    requires tail == [] || tail[0] == '='
    ensures var parts := Split(key + "=" + value + tail, "=");
      |parts| >= 2 && parts[0] == key && parts[1] == value
  {
    var cleaned := key + "=" + value + tail;
    assert cleaned == key + "=" + (value + tail);
    SplitAllAt(key, value + tail, "=");
    var rest := SplitAll(value + tail, "=");
    if tail == [] {
      assert value + tail == value;
      SplitAllWithout(value, "=");
      assert rest == [value];
    } else {
      assert value + tail == value + "=" + tail[1..];
      SplitAllAt(value, tail[1..], "=");
      assert rest[0] == value && |rest| >= 2;
    }
    var all := SplitAll(cleaned, "=");
    assert all == [key] + rest;
    assert |all| >= 2 && all[0] == key && all[1] == value;
    KeptUpTo(all, 1);
  }

  /** The setting of a kept line whose cleaned text splits into `key`, `value`, ... */
  lemma SettingOfPieces(line: string, key: string, value: string)
    requires !IsSkipped(line)
    requires var parts := Split(Trim(ReplaceChar(line, ';', ' ')), "=");
      |parts| >= 2 && parts[0] == key && parts[1] == value
    requires Trim(key) == key && Trim(value) == value
    ensures Setting(line) == Some((ToUpper(key), value))
  {
  }

  /** `key=value` sets the upper-cased key to the value. */
  lemma KeyValueLine(key: string, value: string)
    requires IsWord(key) && IsWord(value) && key[0] != '#'
    ensures Setting(key + "=" + value) == Some((ToUpper(key), value))
  {
    WordIsTrimmed(key);
    WordIsTrimmed(value);
    var line := key + "=" + value;
    assert ';' !in line;
    ReplaceAbsent(line, ';', ' ');
    assert TrimLeft(line) == line && TrimRight(line) == line;
    NotSkipped(line);
    assert line == key + "=" + value + [];
    SplitKeyValue(key, value, []);
    SettingOfPieces(line, key, value);
  }

  /** `key=` carries no setting: its trailing empty piece is dropped, leaving one piece. */
  lemma EmptyValueSkipped(key: string)
    requires IsWord(key) && key[0] != '#'
    ensures Setting(key + "=") == None
  {
    var line := key + "=";
    assert ';' !in line;
    ReplaceAbsent(line, ';', ' ');
    assert TrimLeft(line) == line && TrimRight(line) == line;
    NotSkipped(line);
    assert line == key + "=" + "";
    SplitAllAt(key, "", "=");
    assert SplitAll(line, "=") == [key, ""];
    assert DropTrailingEmpty([key, ""]) == DropTrailingEmpty([key]);
  }

  /** Cleaning a line that starts with a clean head only cleans what follows it. */
  lemma CleanedAfterHead(head: string, rest: string)
    requires |head| > 0 && head[0] > ' ' && head[|head| - 1] > ' ' && ';' !in head
    ensures Trim(ReplaceChar(head + rest, ';', ' ')) == head + TrimRight(ReplaceChar(rest, ';', ' '))
  {
    ReplaceAbsent(head, ';', ' ');
    ReplaceConcat(head, rest, ';', ' ');
    var cleanedRest := ReplaceChar(rest, ';', ' ');
    assert TrimLeft(head + cleanedRest) == head + cleanedRest;
    TrimRightAfter(head, cleanedRest);
  }

  /** `key=value=rest` is not skipped. */
  lemma LongLineKept(key: string, value: string, rest: string, line: string)
    requires IsWord(key) && IsWord(value) && key[0] != '#'
    requires line == key + "=" + value + "=" + rest
    ensures !IsSkipped(line)
  {
    var head := key + "=" + value + "=";
    assert line == head + rest;
    assert TrimLeft(line) == line;
    TrimRightAfter(head, rest);
    assert Trim(line)[0] == key[0];
    NotSkipped(line);
  }

  /** The cleaned text of `key=value=rest` is `key=value` followed by '=' and more. */
  lemma LongLineCleaned(key: string, value: string, rest: string, line: string)
    requires IsWord(key) && IsWord(value)
    requires line == key + "=" + value + "=" + rest
    ensures var tail := "=" + TrimRight(ReplaceChar(rest, ';', ' '));
      Trim(ReplaceChar(line, ';', ' ')) == key + "=" + value + tail
  {
    var head := key + "=" + value + "=";
    assert ';' !in head;
    CleanedAfterHead(head, rest);
    Regroup(key, value, TrimRight(ReplaceChar(rest, ';', ' ')));
  }

  lemma Regroup(key: string, value: string, x: string)
    ensures key + "=" + value + "=" + x == key + "=" + value + ("=" + x)
  {
  }

  /** The setting of `key=value=rest`, named `line`. */
  lemma LongLineSetting(key: string, value: string, rest: string, line: string)
    requires IsWord(key) && IsWord(value) && key[0] != '#'
    requires line == key + "=" + value + "=" + rest
    ensures Setting(line) == Some((ToUpper(key), value))
  {
    WordIsTrimmed(key);
    WordIsTrimmed(value);
    LongLineKept(key, value, rest, line);
    LongLineCleaned(key, value, rest, line);
    SplitKeyValue(key, value, "=" + TrimRight(ReplaceChar(rest, ';', ' ')));
    SettingOfPieces(line, key, value);
  }

  /** `key=value=rest` sets the same as `key=value`: what follows a second '=' is discarded. */
  lemma SecondEqualsDiscardsRest(key: string, value: string, rest: string)
    requires IsWord(key) && IsWord(value) && key[0] != '#'
    ensures Setting(key + "=" + value + "=" + rest) == Setting(key + "=" + value)
    ensures Setting(key + "=" + value + "=" + rest) == Some((ToUpper(key), value))
  {
    KeyValueLine(key, value);
    LongLineSetting(key, value, rest, key + "=" + value + "=" + rest);
  }
}
