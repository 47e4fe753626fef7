/** Step 3 of the script: reading the server, database, user and password out of the
    semicolon-separated connection setting, and assembling the ODBC connection string. */
module Connection {
  import opened Wrappers
  import Text

  /** The four fields, in the order the script extracts them. */
  datatype Field = Server | Database | UserId | Password

  datatype ConnectionParams = ConnectionParams(server: string, database: string, username: string, password: string)

  /** Why the connection step ends the run: the setting is absent (so `split` fails on
      `None`), or no part of it names a field (so `next` raises `StopIteration`). */
  datatype ConnectionError = SettingMissing | FieldMissing(field: Field)

  /** The substrings that identify the part holding a field; each ends in '='. */
  function Keys(f: Field): (keys: seq<string>)
    ensures keys != []
    ensures forall key :: key in keys ==> key != [] && key[|key| - 1] == '='
  {
    match f
    case Server => ["Server="]
    case Database => ["Initial Catalog=", "Database="]
    case UserId => ["User ID="]
    case Password => ["Password="]
  }

  /** No extracted value holds a ';' or an '=': a value is cut at the next '=' and the parts
      come from a split on ';'. */
  predicate Delimiterless(c: ConnectionParams)
  {
    forall f :: ';' !in ValueOf(c, f) && '=' !in ValueOf(c, f)
  }

  /** Position of a field in the extraction order. */
  function Rank(f: Field): (r: nat)
    ensures r < 4
  {
    match f
    case Server => 0
    case Database => 1
    case UserId => 2
    case Password => 3
  }

  function ValueOf(c: ConnectionParams, f: Field): string
  {
    match f
    case Server => c.server
    case Database => c.database
    case UserId => c.username
    case Password => c.password
  }

  /** The test of the generator's `if`: the part contains one of the field's keys. Since every
      key ends in '=', such a part holds an '='. */
  predicate Mentions(part: string, f: Field)
    ensures Mentions(part, f) ==> '=' in part
  {
    if exists key :: key in Keys(f) && Text.Contains(part, key) then
      var key :| key in Keys(f) && Text.Contains(part, key);
      assert key[|key| - 1] == '=';
      Text.ContainsKeeps(part, key, '=');
      true
    else
      false
  }

  /** `p.split('=')[1]`: the text between the first '=' of the part and the next '=' (or the
      end of the part). */
  function FieldValue(part: string): (v: string)
    requires '=' in part
    ensures '=' !in v
    ensures var rest := part[Text.IndexOf(part, '=') + 1..];
              v <= rest && (|v| == |rest| || rest[|v|] == '=')
  {
    Text.SplitAt(part, Text.IndexOf(part, '='), '=');
    Text.Split(part, '=')[1]
  }

  /** A value holds only characters of its part. */
  lemma FieldValueWithin(part: string)
    requires '=' in part
    ensures forall c :: c in FieldValue(part) ==> c in part
  {
    var v := FieldValue(part);
    var rest := part[Text.IndexOf(part, '=') + 1..];
    assert forall j :: 0 <= j < |v| ==> v[j] == rest[j];
  }

  /** A `KEY=value` part gives back its value when neither side holds an '='. */
  lemma FieldValueOfSetting(key: string, value: string)
    requires KeyShaped(key) && '=' !in value
    ensures FieldValue(key + value) == value
  {
    var part := key + value;
    var n := |key| - 1;
    var k := Text.IndexOf(part, '=');
    assert part[n] == '=';
    assert forall j :: 0 <= j < n ==> part[j] == key[..n][j];
    assert k == n;
    var v := FieldValue(part);
    assert forall j :: k + 1 <= j < |part| ==> part[j] == value[j - k - 1];
    assert part[k + 1..] == value;
  }

  /** An '=' after the value ends it: whatever follows is lost. */
  lemma FieldValueCut(key: string, value: string, rest: string)
    requires KeyShaped(key) && '=' !in value
    ensures FieldValue(key + value + "=" + rest) == value
  {
    var part := key + value + "=" + rest;
    var n := |key| - 1;
    var k := Text.IndexOf(part, '=');
    assert part[n] == '=';
    assert forall j :: 0 <= j < n ==> part[j] == key[..n][j];
    assert k == n;
    var v := FieldValue(part);
    assert forall j :: k + 1 <= j < k + 1 + |value| ==> part[j] == value[j - k - 1];
    assert part[k + 1 + |value|] == '=';
    assert part[k + 1..k + 1 + |value|] == value;
  }

  /** A value that itself holds an '=' is cut there: "Password=ab=c" gives "ab". */
  lemma ValueCutAtSecondEquals()
    ensures FieldValue("Password=ab=c") == "ab"
  {
    FieldValueCut("Password=", "ab", "c");
    assert "Password=" + "ab" + "=" + "c" == "Password=ab=c";
  }

  /** `next(p.split('=')[1] for p in parts if ...)`: the value of the first part that names
      the field, or nothing when no part does (`StopIteration`). */
  function Extract(parts: seq<string>, f: Field): (r: Option<string>)
    ensures r.Some? ==> '=' !in r.value
    ensures r.Some? && (forall i :: 0 <= i < |parts| ==> ';' !in parts[i]) ==> ';' !in r.value
  {
    if parts == [] then None
    else if Mentions(parts[0], f) then
      FieldValueWithin(parts[0]);
      Some(FieldValue(parts[0]))
    else Extract(parts[1..], f)
  }

  /** Extraction is a first-match search: it fails exactly when no part names the field, and
      otherwise gives the value of the first part that does. */
  lemma {:induction false} ExtractFirstMatch(parts: seq<string>, f: Field)
    ensures Extract(parts, f).None? <==> forall i :: 0 <= i < |parts| ==> !Mentions(parts[i], f)
    ensures forall i ::
              (0 <= i < |parts| && Mentions(parts[i], f) &&
               forall j :: 0 <= j < i ==> !Mentions(parts[j], f))
              ==> Extract(parts, f) == Some(FieldValue(parts[i]))
    decreases |parts|
  {
    if parts != [] && !Mentions(parts[0], f) {
      ExtractFirstMatch(parts[1..], f);
      assert forall i :: 1 <= i < |parts| ==> parts[i] == parts[1..][i - 1];
    }
  }

  /** The four `next(...)` extractions of canvas_to_sql.py, in order; the first field that
      no part names ends the run. */
  function ParseParts(parts: seq<string>): (r: Result<ConnectionParams, ConnectionError>)
    ensures r.Failure? ==> r.error.FieldMissing?
    ensures r.Success? && (forall i :: 0 <= i < |parts| ==> ';' !in parts[i]) ==> Delimiterless(r.value)
  {
    var server := Extract(parts, Server);
    var database := Extract(parts, Database);
    var username := Extract(parts, UserId);
    var password := Extract(parts, Password);
    if server.None? then Failure(FieldMissing(Server))
    else if database.None? then Failure(FieldMissing(Database))
    else if username.None? then Failure(FieldMissing(UserId))
    else if password.None? then Failure(FieldMissing(Password))
    else Success(ConnectionParams(server.value, database.value, username.value, password.value))
  }

  /** `SQL_CONNECTION_STRING.split(';')` followed by the four extractions; an absent setting
      fails before any part is read. */
  function Parse(setting: Option<string>): (r: Result<ConnectionParams, ConnectionError>)
    ensures setting.None? ==> r == Failure(SettingMissing)
    ensures r.Success? ==> Delimiterless(r.value)
  {
    if setting.None? then Failure(SettingMissing)
    else ParseParts(Text.Split(setting.value, ';'))
  }

  /** Every field is named by some part. */
  predicate AllNamed(parts: seq<string>)
  {
    forall f :: Extract(parts, f).Some?
  }

  /** What `Parse` returns for a present setting: the four extracted values when every field
      is named, otherwise the first field, in extraction order, that is not. */
  lemma ParseSpec(s: string)
    ensures Parse(Some(s)).Success? <==> AllNamed(Text.Split(s, ';'))
    ensures Parse(Some(s)).Success? ==>
              forall f :: Extract(Text.Split(s, ';'), f) == Some(ValueOf(Parse(Some(s)).value, f))
    ensures Parse(Some(s)).Failure? ==>
              var missing := Parse(Some(s)).error;
              && missing.FieldMissing?
              && Extract(Text.Split(s, ';'), missing.field).None?
              && forall g :: Rank(g) < Rank(missing.field) ==> Extract(Text.Split(s, ';'), g).Some?
  {
    PartsSpec(Text.Split(s, ';'));
  }

  /** `ParseParts` over any list of parts. */
  lemma PartsSpec(parts: seq<string>)
    ensures ParseParts(parts).Success? <==> AllNamed(parts)
    ensures ParseParts(parts).Success? ==>
              forall f :: Extract(parts, f) == Some(ValueOf(ParseParts(parts).value, f))
    ensures ParseParts(parts).Failure? ==>
              var missing := ParseParts(parts).error;
              && Extract(parts, missing.field).None?
              && forall g :: Rank(g) < Rank(missing.field) ==> Extract(parts, g).Some?
  {
    var r := ParseParts(parts);
    if AllNamed(parts) {
      assert Extract(parts, Server).Some? && Extract(parts, Database).Some?;
      assert Extract(parts, UserId).Some? && Extract(parts, Password).Some?;
      assert r.Success?;
    }
    forall f
      ensures r.Success? ==> Extract(parts, f) == Some(ValueOf(r.value, f))
      ensures r.Failure? && Rank(f) < Rank(r.error.field) ==> Extract(parts, f).Some?
    {
      match f
      case Server =>
      case Database =>
      case UserId =>
      case Password =>
    }
  }

  /** A setting in which no part holds "Password=" ends the run, even when the other three
      fields are present. */
  lemma MissingPassword(s: string)
    requires forall f :: f != Password ==> Extract(Text.Split(s, ';'), f).Some?
    requires forall i :: 0 <= i < |Text.Split(s, ';')| ==> !Text.Contains(Text.Split(s, ';')[i], "Password=")
    ensures Parse(Some(s)) == Failure(FieldMissing(Password))
  {
    var parts := Text.Split(s, ';');
    forall i | 0 <= i < |parts|
      ensures !Mentions(parts[i], Password)
    {
      assert Keys(Password) == ["Password="];
    }
    ExtractFirstMatch(parts, Password);
  }

  /** The fixed settings of the template. */
  const DriverSetting := "DRIVER={ODBC Driver 18 for SQL Server}"
  const EncryptSetting := "Encrypt=yes"
  const TrustSetting := "TrustServerCertificate=no"
  const TimeoutSetting := "Connection Timeout=30"

  lemma FixedSettingsClean()
    ensures ';' !in DriverSetting && ';' !in EncryptSetting
    ensures ';' !in TrustSetting && ';' !in TimeoutSetting
  {
    assert ';' !in DriverSetting by {
      assert forall i :: 0 <= i < |DriverSetting| ==> DriverSetting[i] != ';';
    }
    assert ';' !in EncryptSetting by {
      assert forall i :: 0 <= i < |EncryptSetting| ==> EncryptSetting[i] != ';';
    }
    assert ';' !in TrustSetting by {
      assert forall i :: 0 <= i < |TrustSetting| ==> TrustSetting[i] != ';';
    }
    assert ';' !in TimeoutSetting by {
      assert forall i :: 0 <= i < |TimeoutSetting| ==> TimeoutSetting[i] != ';';
    }
  }

  /** The key the template writes in front of a field's value. */
  function OdbcKey(f: Field): string
  {
    match f
    case Server => "SERVER="
    case Database => "DATABASE="
    case UserId => "UID="
    case Password => "PWD="
  }

  /** The settings of the ODBC connection-string template, in order; the template writes each one
      followed by ';'. */
  function OdbcSettings(c: ConnectionParams): (settings: seq<string>)
    ensures |settings| == 8
    ensures settings[0] == DriverSetting
    ensures settings[5..] == [EncryptSetting, TrustSetting, TimeoutSetting]
    ensures forall f :: settings[Rank(f) + 1] == OdbcKey(f) + ValueOf(c, f)
  {
    [ DriverSetting,
      OdbcKey(Server) + c.server,
      OdbcKey(Database) + c.database,
      OdbcKey(UserId) + c.username,
      OdbcKey(Password) + c.password,
      EncryptSetting,
      TrustSetting,
      TimeoutSetting ]
  }

  /** Each setting followed by ';'. */
  function Terminated(settings: seq<string>): string
  {
    if settings == [] then "" else settings[0] + [';'] + Terminated(settings[1..])
  }

  /** The ODBC connection string handed to the driver. */
  function OdbcConnectionString(c: ConnectionParams): (s: string)
    ensures Delimiterless(c) ==> Text.Split(s, ';') == OdbcSettings(c) + [""]
  {
    var s := Terminated(OdbcSettings(c));
    assert Delimiterless(c) ==> Text.Split(s, ';') == OdbcSettings(c) + [""] by {
      if Delimiterless(c) {
        OdbcSettingsClean(c);
        SplitTerminated(OdbcSettings(c));
      }
    }
    s
  }

  /** Settings that hold no ';' are read back by a split, followed by the empty piece after
      the last ';'. */
  lemma {:induction false} SplitTerminated(settings: seq<string>)
    requires forall i :: 0 <= i < |settings| ==> ';' !in settings[i]
    ensures Text.Split(Terminated(settings), ';') == settings + [""]
    decreases |settings|
  {
    if settings != [] {
      var tail := settings[1..];
      calc {
        Text.Split(Terminated(settings), ';');
        { Text.SplitFirst(settings[0], Terminated(tail), ';'); }
        [settings[0]] + Text.Split(Terminated(tail), ';');
        { SplitTerminated(tail); }
        [settings[0]] + (tail + [""]);
        { assert settings == [settings[0]] + tail; }
        settings + [""];
      }
    }
  }

  /** A key ends in its only '='. */
  predicate KeyShaped(key: string)
  {
    key != [] && key[|key| - 1] == '=' && '=' !in key[..|key| - 1]
  }

  lemma OdbcKeysShaped(f: Field)
    ensures KeyShaped(OdbcKey(f)) && ';' !in OdbcKey(f)
  {
    match f
    case Server => assert OdbcKey(f)[..6] == "SERVER";
    case Database => assert OdbcKey(f)[..8] == "DATABASE";
    case UserId => assert OdbcKey(f)[..3] == "UID";
    case Password => assert OdbcKey(f)[..3] == "PWD";
  }

  /** With values free of ';', no setting of the template holds a ';'. */
  lemma OdbcSettingsClean(c: ConnectionParams)
    requires Delimiterless(c)
    ensures forall i :: 0 <= i < |OdbcSettings(c)| ==> ';' !in OdbcSettings(c)[i]
  {
    var settings := OdbcSettings(c);
    forall i | 0 <= i < |settings|
      ensures ';' !in settings[i]
    {
      if 1 <= i <= 4 {
        var f := if i == 1 then Server else if i == 2 then Database else if i == 3 then UserId else Password;
        assert settings[i] == OdbcKey(f) + ValueOf(c, f);
        OdbcKeysShaped(f);
      } else {
        FixedSettingsClean();
      }
    }
  }

  /** The settings SERVER, DATABASE, UID and PWD of the template hold exactly the values
      they were built from when those are free of '='. */
  lemma OdbcValues(c: ConnectionParams, f: Field)
    requires Delimiterless(c)
    ensures '=' in OdbcSettings(c)[Rank(f) + 1]
    ensures FieldValue(OdbcSettings(c)[Rank(f) + 1]) == ValueOf(c, f)
  {
    var setting := OdbcSettings(c)[Rank(f) + 1];
    assert setting == OdbcKey(f) + ValueOf(c, f);
    OdbcKeysShaped(f);
    FieldValueOfSetting(OdbcKey(f), ValueOf(c, f));
  }

  /** The assembled string carries back the extracted fields: it splits into the eight
      settings (and the empty piece after the last ';'), and its SERVER, DATABASE, UID and PWD
      settings hold exactly the values parsed from the connection setting (which are free of
      delimiters, by the contract of `Parse`). */
  lemma OdbcRoundTrip(c: ConnectionParams)
    requires Delimiterless(c)
    ensures var parts := Text.Split(OdbcConnectionString(c), ';');
              && parts == OdbcSettings(c) + [""]
              && forall f :: '=' in parts[Rank(f) + 1] && FieldValue(parts[Rank(f) + 1]) == ValueOf(c, f)
  {
    var parts := Text.Split(OdbcConnectionString(c), ';');
    assert parts == OdbcSettings(c) + [""] by {
      OdbcSettingsClean(c);
      SplitTerminated(OdbcSettings(c));
    }
    forall f
      ensures '=' in parts[Rank(f) + 1] && FieldValue(parts[Rank(f) + 1]) == ValueOf(c, f)
    {
      OdbcValues(c, f);
    }
  }
}
