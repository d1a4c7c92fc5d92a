/**
 * Service configuration: the record, its construction from an environment
 * map (`Config.from_env`, `_get_int`), Python's `int()` on the strings it
 * reads, and the range checks of `Config.validate`.
 */
module Configuration {
  import opened Wrappers
  import opened PathOps

  datatype Config = Config(
    uncompressedPath: string,
    compressedPath: string,
    cleanupIntervalSeconds: int,
    minFileSizeKb: int,
    maxResolution: int,
    compressionQuality: int,
    cacheMaxsize: int,
    cacheTtl: int,
    logLevel: string,
    maxConcurrentCompressions: int,
    skipExistingFiles: bool)

  /** A configuration with every optional field at its default. */
  function Defaults(uncompressed: string, compressed: string): Config {
    Config(uncompressed, compressed, 60, 1024, 1920, 90, 100, 60, "INFO", 4, true)
  }

  datatype ConfigError =
    | MissingVariable(name: string)
    | NotAnInteger(key: string, value: string)
    | UncompressedPathMissing
    | CompressedPathMissing
    | BadCleanupInterval
    | BadMinFileSize
    | BadCompressionQuality
    | BadMaxResolution
    | BadLogLevel
    | BadMaxConcurrency

  type Env = map<string, string>

  // ---------------------------------------------------------------------
  // int() on a string: surrounding whitespace, an optional sign, decimal
  // digits with single underscores between them.

  /** The ASCII characters `str.isspace` accepts. */
  predicate IsSpace(c: char) {
    c == ' ' || ('\t' <= c <= '\r') || (28 <= c as int <= 31)
  }

  predicate IsDigit(c: char) {
    '0' <= c <= '9'
  }

  function StripLeft(s: string): (r: string)
    ensures |r| <= |s|
    ensures r == [] || !IsSpace(r[0])
  {
    if s != [] && IsSpace(s[0]) then StripLeft(s[1..]) else s
  }

  function StripRight(s: string): (r: string)
    ensures |r| <= |s|
    ensures r == [] || !IsSpace(r[|r| - 1])
  {
    if s != [] && IsSpace(s[|s| - 1]) then StripRight(s[..|s| - 1]) else s
  }

  /** `s.strip()` */
  function Strip(s: string): string {
    StripRight(StripLeft(s))
  }

  /** Digits and underscores, starting and ending with a digit, with no
      two underscores in a row. */
  predicate WellFormedDigits(s: string) {
    s != [] && IsDigit(s[0]) && IsDigit(s[|s| - 1]) &&
    (forall k :: 0 <= k < |s| ==> IsDigit(s[k]) || s[k] == '_') &&
    (forall k :: 0 <= k < |s| - 1 ==> !(s[k] == '_' && s[k + 1] == '_'))
  }

  /** The number the digits of `s` spell, underscores ignored. */
  function DigitsValue(s: string): nat {
    if s == [] then 0
    else
      var c := s[|s| - 1];
      if IsDigit(c) then DigitsValue(s[..|s| - 1]) * 10 + (c as int - '0' as int)
      else DigitsValue(s[..|s| - 1])
  }

  /** Python's `int(s)` in base 10 on ASCII input: `None` where it raises
      `ValueError`. */
  function ParseInt(s: string): Option<int> {
    var t := Strip(s);
    if t == [] then None
    else
      var negative := t[0] == '-';
      var body := if t[0] == '-' || t[0] == '+' then t[1..] else t;
      if !WellFormedDigits(body) then None
      else Some(if negative then -(DigitsValue(body) as int) else DigitsValue(body))
  }

  /** Decimal digits of a natural number, most significant first. */
  function NatToString(n: nat): (s: string)
    ensures s != [] && forall k :: 0 <= k < |s| ==> IsDigit(s[k])
  {
    if n < 10 then [('0' as int + n) as char]
    else NatToString(n / 10) + [('0' as int + n % 10) as char]
  }

  /** `str(n)` */
  function IntToString(n: int): string {
    if n < 0 then "-" + NatToString(-n) else NatToString(n)
  }

  lemma {:induction false} DigitsValueOfNatToString(n: nat)
    ensures DigitsValue(NatToString(n)) == n
  {
    var s := NatToString(n);
    if n >= 10 {
      DigitsValueOfNatToString(n / 10);
      assert s[..|s| - 1] == NatToString(n / 10);
    }
  }

  /** `int(str(n)) == n` for every integer. */
  lemma ParseIntRoundTrip(n: int)
    ensures ParseInt(IntToString(n)) == Some(n)
  {
    var s := IntToString(n);
    if n < 0 {
      var digits := NatToString(-n);
      assert s[0] == '-' && s[|s| - 1] == digits[|digits| - 1];
      StripUnspaced(s);
      assert s[1..] == digits;
      DigitsValueOfNatToString(-n);
    } else {
      StripUnspaced(s);
      DigitsValueOfNatToString(n);
    }
  }

  /** A string that neither starts nor ends in whitespace is its own
      `strip()`. */
  lemma StripUnspaced(s: string)
    requires s != [] && !IsSpace(s[0]) && !IsSpace(s[|s| - 1])
    ensures Strip(s) == s
  {
    assert StripLeft(s) == s;
  }

  /** Surrounding whitespace is stripped, as `int()` strips it. */
  lemma ParseIntStripsSpace()
    ensures ParseInt(" 42\n") == Some(42)
  {
    assert Strip(" 42\n") == "42" by {
      assert StripLeft(" 42\n") == "42\n";
      assert StripRight("42\n") == "42";
    }
    assert DigitsValue("42") == 42 by { assert "42"[..1] == "4"; }
  }

  /** A sign and single underscores between digits are accepted. */
  lemma ParseIntSignAndUnderscore()
    ensures ParseInt("+7") == Some(7)
    ensures ParseInt("-1_000") == Some(-1000)
  {
    assert Strip("+7") == "+7";
    assert "+7"[1..] == "7";
    assert WellFormedDigits("7");
    assert DigitsValue("7") == 7 by { assert "7"[..0] == []; }
    assert Strip("-1_000") == "-1_000";
    assert "-1_000"[1..] == "1_000";
    assert DigitsValue("1_000") == 1000 by {
      assert "1_000"[..4] == "1_00" && "1_00"[..3] == "1_0";
      assert "1_0"[..2] == "1_" && "1_"[..1] == "1";
    }
  }

  /** A doubled underscore, letters, a lone sign and a blank string are
      rejected. */
  lemma ParseIntRejects()
    ensures ParseInt("1__0") == None
    ensures ParseInt("abc") == None
    ensures ParseInt("-") == None
    ensures ParseInt("  ") == None
  {
    var bad := "1__0";
    assert Strip(bad) == bad;
    assert bad[1] == '_' && bad[2] == '_';
    assert Strip("abc") == "abc";
    assert Strip("-") == "-";
    assert StripLeft("  ") == [] by { assert "  "[1..] == " "; }
  }

  // ---------------------------------------------------------------------
  // Construction from the environment.

  /** `Config._get_int(key, default)`: the default when the key is unset,
      its integer value when it parses, an error naming the key otherwise. */
  function GetInt(env: Env, key: string, default: int): (r: Result<int, ConfigError>)
    ensures key !in env ==> r == Ok(default)
    ensures key in env && ParseInt(env[key]).Some? ==> r == Ok(ParseInt(env[key]).value)
    ensures key in env && ParseInt(env[key]).None? ==> r == Err(NotAnInteger(key, env[key]))
  {
    if key !in env then Ok(default)
    else match ParseInt(env[key])
      case Some(n) => Ok(n)
      case None => Err(NotAnInteger(key, env[key]))
  }

  /** `os.getenv(key, default)` */
  function GetStr(env: Env, key: string, default: string): string {
    if key in env then env[key] else default
  }

  /** `Config.from_env` over an environment map: the two paths are
      required, the integers are read in declaration order (the first bad
      one is reported), the log level is upper-cased, and existing files are
      skipped unless SKIP_EXISTING_FILES lower-cases to something other than
      `true`. */
  function FromEnv(env: Env): Result<Config, ConfigError> {
    if "UNCOMPRESSED" !in env then Err(MissingVariable("UNCOMPRESSED"))
    else if "COMPRESSED" !in env then Err(MissingVariable("COMPRESSED"))
    else
      var cleanup := GetInt(env, "CLEANUP_INTERVAL_SECONDS", 60);
      var minKb := GetInt(env, "MIN_FILE_SIZE_KB", 1024);
      var maxRes := GetInt(env, "MAX_RESOLUTION", 1920);
      var quality := GetInt(env, "COMPRESSION_QUALITY", 90);
      var maxsize := GetInt(env, "CACHE_MAXSIZE", 100);
      var ttl := GetInt(env, "CACHE_TTL", 60);
      var concurrency := GetInt(env, "MAX_CONCURRENT_COMPRESSIONS", 4);
      if cleanup.Err? then Err(cleanup.error)
      else if minKb.Err? then Err(minKb.error)
      else if maxRes.Err? then Err(maxRes.error)
      else if quality.Err? then Err(quality.error)
      else if maxsize.Err? then Err(maxsize.error)
      else if ttl.Err? then Err(ttl.error)
      else if concurrency.Err? then Err(concurrency.error)
      else Ok(Config(
        env["UNCOMPRESSED"], env["COMPRESSED"],
        cleanup.value, minKb.value, maxRes.value, quality.value, maxsize.value, ttl.value,
        Upper(GetStr(env, "LOG_LEVEL", "INFO")),
        concurrency.value,
        Lower(GetStr(env, "SKIP_EXISTING_FILES", "true")) == "true"))
  }

  /** Without either path variable there is no configuration. */
  lemma FromEnvRequiresPaths(env: Env)
    ensures "UNCOMPRESSED" !in env ==> FromEnv(env) == Err(MissingVariable("UNCOMPRESSED"))
    ensures "UNCOMPRESSED" in env && "COMPRESSED" !in env ==> FromEnv(env) == Err(MissingVariable("COMPRESSED"))
    ensures FromEnv(env).Ok? ==>
      FromEnv(env).value.uncompressedPath == env["UNCOMPRESSED"] && FromEnv(env).value.compressedPath == env["COMPRESSED"]
  {
  }

  /** With only the two paths set, every other field takes its default. */
  lemma FromEnvDefaults(u: string, c: string)
    ensures FromEnv(map["UNCOMPRESSED" := u, "COMPRESSED" := c]) == Ok(Defaults(u, c))
  {
    var env := map["UNCOMPRESSED" := u, "COMPRESSED" := c];
    assert Upper("INFO") == "INFO";
    assert Lower("true") == "true";
  }

  /** The log level is stored upper-cased, and the skip flag is set exactly
      when its value lower-cases to `true` (or is absent). */
  lemma FromEnvNormalises(env: Env)
    requires FromEnv(env).Ok?
    ensures FromEnv(env).value.logLevel == Upper(GetStr(env, "LOG_LEVEL", "INFO"))
    ensures FromEnv(env).value.skipExistingFiles <==>
              ("SKIP_EXISTING_FILES" !in env || Lower(env["SKIP_EXISTING_FILES"]) == "true")
  {
    assert Lower("true") == "true";
  }

  /** A malformed integer setting is reported with its key and value when
      the settings read before it are well-formed. */
  lemma FromEnvRejectsBadInteger(env: Env)
    requires "UNCOMPRESSED" in env && "COMPRESSED" in env
    requires "CLEANUP_INTERVAL_SECONDS" in env && ParseInt(env["CLEANUP_INTERVAL_SECONDS"]).None?
    ensures FromEnv(env) == Err(NotAnInteger("CLEANUP_INTERVAL_SECONDS", env["CLEANUP_INTERVAL_SECONDS"]))
  {
  }

  // ---------------------------------------------------------------------
  // Validation.

  predicate ValidLogLevel(level: string) {
    level in ["DEBUG", "INFO", "WARNING", "ERROR", "CRITICAL"]
  }

  /** Every check `validate` makes holds. The cache settings are not
      among them. */
  predicate Acceptable(c: Config, uncompressedExists: bool, compressedExists: bool) {
    uncompressedExists && compressedExists &&
    c.cleanupIntervalSeconds > 0 &&
    c.minFileSizeKb >= 0 &&
    0 < c.compressionQuality <= 100 &&
    c.maxResolution > 0 &&
    ValidLogLevel(c.logLevel) &&
    c.maxConcurrentCompressions > 0
  }

  /** `Config.validate`: the first failing check, in the order the method
      makes them, or `None`. Whether the two paths exist is given. */
  function Validate(c: Config, uncompressedExists: bool, compressedExists: bool): (r: Option<ConfigError>)
    ensures r.None? <==> Acceptable(c, uncompressedExists, compressedExists)
  {
    if !uncompressedExists then Some(UncompressedPathMissing)
    else if !compressedExists then Some(CompressedPathMissing)
    else if c.cleanupIntervalSeconds <= 0 then Some(BadCleanupInterval)
    else if c.minFileSizeKb < 0 then Some(BadMinFileSize)
    else if !(0 < c.compressionQuality <= 100) then Some(BadCompressionQuality)
    else if c.maxResolution <= 0 then Some(BadMaxResolution)
    else if !ValidLogLevel(c.logLevel) then Some(BadLogLevel)
    else if c.maxConcurrentCompressions <= 0 then Some(BadMaxConcurrency)
    else None
  }

  /** The checks run in a fixed order, and each failing check is reported
      with its own error exactly when every earlier check passed. */
  lemma ValidateReportsFirstFailure(c: Config, ue: bool, ce: bool)
    ensures !ue ==> Validate(c, ue, ce) == Some(UncompressedPathMissing)
    ensures ue && !ce ==> Validate(c, ue, ce) == Some(CompressedPathMissing)
    ensures ue && ce && c.cleanupIntervalSeconds <= 0 ==> Validate(c, ue, ce) == Some(BadCleanupInterval)
    ensures (ue && ce && c.cleanupIntervalSeconds > 0 && c.minFileSizeKb < 0) ==>
      Validate(c, ue, ce) == Some(BadMinFileSize)
    ensures (ue && ce && c.cleanupIntervalSeconds > 0 && c.minFileSizeKb >= 0 &&
             !(0 < c.compressionQuality <= 100)) ==>
      Validate(c, ue, ce) == Some(BadCompressionQuality)
    ensures (ue && ce && c.cleanupIntervalSeconds > 0 && c.minFileSizeKb >= 0 &&
             0 < c.compressionQuality <= 100 && c.maxResolution <= 0) ==>
      Validate(c, ue, ce) == Some(BadMaxResolution)
    ensures (ue && ce && c.cleanupIntervalSeconds > 0 && c.minFileSizeKb >= 0 &&
             0 < c.compressionQuality <= 100 && c.maxResolution > 0 && !ValidLogLevel(c.logLevel)) ==>
      Validate(c, ue, ce) == Some(BadLogLevel)
    ensures (ue && ce && c.cleanupIntervalSeconds > 0 && c.minFileSizeKb >= 0 &&
             0 < c.compressionQuality <= 100 && c.maxResolution > 0 && ValidLogLevel(c.logLevel) &&
             c.maxConcurrentCompressions <= 0) ==>
      Validate(c, ue, ce) == Some(BadMaxConcurrency)
  {
  }

  /** The defaults pass validation once both paths exist. */
  lemma DefaultsAreValid(u: string, c: string)
    ensures Validate(Defaults(u, c), true, true).None?
  {
  }

  /** The edges of the ranges: no minimum size and quality 100 are fine,
      quality 0 is not. */
  lemma ValidateBoundaries(u: string, c: string)
    ensures Validate(Defaults(u, c).(minFileSizeKb := 0), true, true).None?
    ensures Validate(Defaults(u, c).(compressionQuality := 100), true, true).None?
    ensures Validate(Defaults(u, c).(compressionQuality := 0), true, true) == Some(BadCompressionQuality)
    ensures Validate(Defaults(u, c).(logLevel := "info"), true, true) == Some(BadLogLevel)
  {
    assert !ValidLogLevel("info") by {
      assert "info" != "DEBUG" && "info" != "INFO" && "info" != "WARNING";
      assert "info" != "ERROR" && "info" != "CRITICAL";
    }
  }

  /** The cache size and lifetime may hold any value. */
  lemma ValidateIgnoresCache(c: Config, maxsize: int, ttl: int, ue: bool, ce: bool)
    ensures Validate(c.(cacheMaxsize := maxsize, cacheTtl := ttl), ue, ce) == Validate(c, ue, ce)
  {
  }
}
