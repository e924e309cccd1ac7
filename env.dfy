/**
 * Model of config/env.js: the four settings read from the environment,
 * each defaulted with `||`, and the membership check that makes start-up
 * throw when `NODE_ENV` or `LOG_LEVEL` holds a value outside its list.
 * The process environment, after `dotenv` has merged the `.env` file into
 * it, is a map from variable names to values.
 */
module Env {
  import opened Wrappers
  import opened JsString

  const ValidNodeEnvs: seq<string> := ["development", "production", "test"]

  const ValidLogLevels: seq<string> := ["error", "warn", "info", "http", "verbose", "debug", "silly"]

  /**
   * The text of the error `validateEnvVariable` throws: it opens by naming
   * the variable and closes with the value found, in quotes.
   */
  function InvalidMessage(value: string, validValues: seq<string>, variableName: string): (r: string)
    ensures var head := "Variable de entorno " + variableName;
      |r| > |head| + |value| + 3 && r[..|head|] == head && r[|r| - |value| - 3..] == Quoted(value) + "."
  {
    "Variable de entorno " + variableName + " inválida. Debe ser uno de los siguientes valores: "
    + Join(validValues, " | ") + ". Valor actual: " + Quoted(value) + "."
  }

  function Quoted(value: string): string
  {
    "\"" + value + "\""
  }

  /** `validateEnvVariable`: passes exactly when the value is one of the valid ones, compared exactly. */
  function ValidateEnvVariable(value: string, validValues: seq<string>, variableName: string): (r: Outcome<string>)
    ensures r.Pass? <==> exists i :: 0 <= i < |validValues| && validValues[i] == value
    ensures r.Fail? ==> r.error == InvalidMessage(value, validValues, variableName)
  {
    if value in validValues then Pass else Fail(InvalidMessage(value, validValues, variableName))
  }

  /** The error names the variable, every valid value and the value found, in quotes. */
  lemma MessageMentions(value: string, validValues: seq<string>, variableName: string, i: nat)
    requires i < |validValues|
    ensures Occurs(validValues[i], InvalidMessage(value, validValues, variableName))
    ensures Occurs(Quoted(value), InvalidMessage(value, validValues, variableName))
    ensures Occurs(variableName, InvalidMessage(value, validValues, variableName))
  {
    var head := "Variable de entorno ";
    var mid := " inválida. Debe ser uno de los siguientes valores: ";
    var actual := ". Valor actual: ";
    var joined := Join(validValues, " | ");
    var q := Quoted(value);
    var m1 := head + variableName;
    var m2 := m1 + mid;
    var m3 := m2 + joined;
    var m4 := m3 + actual;
    var m5 := m4 + q;
    assert InvalidMessage(value, validValues, variableName) == m5 + ".";
    OccursAtEnd(variableName, head);
    OccursAppend(variableName, m1, mid);
    OccursAppend(variableName, m2, joined);
    OccursAppend(variableName, m3, actual);
    OccursAppend(variableName, m4, q);
    OccursAppend(variableName, m5, ".");
    JoinMentionsEach(validValues, " | ", i);
    OccursAtEnd(joined, m2);
    OccursTrans(validValues[i], joined, m3);
    OccursAppend(validValues[i], m3, actual);
    OccursAppend(validValues[i], m4, q);
    OccursAppend(validValues[i], m5, ".");
    OccursAtEnd(q, m4);
    OccursAppend(q, m5, ".");
  }

  /** `process.env[name]`: undefined when the variable is not set. */
  function Lookup(env: map<string, string>, name: string): Option<string>
  {
    if name in env then Some(env[name]) else None
  }

  /** `process.env[name] || fallback`: both an unset and an empty variable are falsy. */
  function OrDefault(v: Option<string>, fallback: string): (r: string)
    ensures v.Some? && v.value != "" ==> r == v.value
    ensures v.None? || v.value == "" ==> r == fallback
  {
    if v.Some? && v.value != "" then v.value else fallback
  }

  /** The four exported constants. */
  datatype Config = Config(logsDir: string, port: string, nodeEnv: string, logLevel: string)

  /** The constant for `name`: the variable's value when it is set and not empty, else the fallback. */
  function Setting(env: map<string, string>, name: string, fallback: string): (r: string)
    ensures name in env && env[name] != "" ==> r == env[name]
    ensures name !in env || env[name] == "" ==> r == fallback
  {
    OrDefault(Lookup(env, name), fallback)
  }

  /**
   * Loading config/env.js: the defaulted constants, then the two
   * validations in source order (`NODE_ENV` before `LOG_LEVEL`); the first
   * failure is the error thrown.
   */
  function LoadEnv(env: map<string, string>): (r: Result<Config, string>)
    ensures r.Success? <==> Setting(env, "NODE_ENV", "development") in ValidNodeEnvs
                            && Setting(env, "LOG_LEVEL", "info") in ValidLogLevels
    ensures r.Success? ==> r.value == Config(Setting(env, "LOGS_DIR", "logs"), Setting(env, "PORT", "3000"),
                                             Setting(env, "NODE_ENV", "development"), Setting(env, "LOG_LEVEL", "info"))
    ensures Setting(env, "NODE_ENV", "development") !in ValidNodeEnvs
            ==> r == Failure(InvalidMessage(Setting(env, "NODE_ENV", "development"), ValidNodeEnvs, "NODE_ENV"))
    ensures Setting(env, "NODE_ENV", "development") in ValidNodeEnvs && Setting(env, "LOG_LEVEL", "info") !in ValidLogLevels
            ==> r == Failure(InvalidMessage(Setting(env, "LOG_LEVEL", "info"), ValidLogLevels, "LOG_LEVEL"))
  {
    var logsDir := Setting(env, "LOGS_DIR", "logs");
    var port := Setting(env, "PORT", "3000");
    var nodeEnv := Setting(env, "NODE_ENV", "development");
    match ValidateEnvVariable(nodeEnv, ValidNodeEnvs, "NODE_ENV")
    case Fail(e) => Failure(e)
    case Pass =>
      var logLevel := Setting(env, "LOG_LEVEL", "info");
      match ValidateEnvVariable(logLevel, ValidLogLevels, "LOG_LEVEL")
      case Fail(e) => Failure(e)
      case Pass => Success(Config(logsDir, port, nodeEnv, logLevel))
  }

  /** With nothing set, every default applies and passes its own validation. */
  lemma DefaultsAreValid()
    ensures LoadEnv(map[]) == Success(Config("logs", "3000", "development", "info"))
  {
    assert ValidNodeEnvs[0] == "development";
    assert ValidLogLevels[2] == "info";
  }

  /** A variable set to the empty string behaves as if it were not set. */
  lemma EmptyIsUnset(env: map<string, string>, name: string)
    ensures LoadEnv(env[name := ""]) == LoadEnv(env - {name})
  {
    SettingEmptyIsUnset(env, name, "LOGS_DIR", "logs");
    SettingEmptyIsUnset(env, name, "PORT", "3000");
    SettingEmptyIsUnset(env, name, "NODE_ENV", "development");
    SettingEmptyIsUnset(env, name, "LOG_LEVEL", "info");
  }

  lemma SettingEmptyIsUnset(env: map<string, string>, name: string, key: string, fallback: string)
    ensures Setting(env[name := ""], key, fallback) == Setting(env - {name}, key, fallback)
  {
  }

  /** `PORT` and `LOGS_DIR` are never validated: whatever they hold, loading succeeds or fails the same. */
  lemma UnvalidatedSettings(env: map<string, string>, name: string, value: string)
    requires name == "PORT" || name == "LOGS_DIR"
    ensures LoadEnv(env[name := value]).Success? == LoadEnv(env).Success?
  {
    assert Setting(env[name := value], "NODE_ENV", "development") == Setting(env, "NODE_ENV", "development");
    assert Setting(env[name := value], "LOG_LEVEL", "info") == Setting(env, "LOG_LEVEL", "info");
  }

  /** The comparison is exact: a valid value in another case is rejected. */
  lemma CaseSensitive()
    ensures LoadEnv(map["NODE_ENV" := "Production"]).Failure?
    ensures LoadEnv(map["LOG_LEVEL" := "INFO"]).Failure?
  {
    var e1, e2 := map["NODE_ENV" := "Production"], map["LOG_LEVEL" := "INFO"];
    assert Setting(e1, "NODE_ENV", "development") == "Production";
    assert "Production" !in ValidNodeEnvs by {
      forall i | 0 <= i < |ValidNodeEnvs| ensures ValidNodeEnvs[i] != "Production" {
        assert ValidNodeEnvs[i][0] != 'P';
      }
    }
    assert Setting(e2, "LOG_LEVEL", "info") == "INFO";
    assert "INFO" !in ValidLogLevels by {
      forall i | 0 <= i < |ValidLogLevels| ensures ValidLogLevels[i] != "INFO" {
        assert ValidLogLevels[i][0] != 'I';
      }
    }
  }
}
