/** The converter's settings (app/config.py): the format tables that the
    validators and the dispatcher must agree on, the limits, and the
    fallbacks that build the Redis and Celery URLs. */
module Config {
  import opened Basics
  import opened PyText

  /** Extensions an upload may carry, and formats a job may target. */
  const ALLOWED_EXTENSIONS: set<string> := {"jpg", "jpeg", "png", "webp", "pdf", "docx"}

  /** For each source format, the target formats the service offers. */
  const SUPPORTED_CONVERSIONS: map<string, seq<string>> := map[
    "jpg" := ["png", "webp", "pdf"],
    "jpeg" := ["png", "webp", "pdf"],
    "png" := ["jpg", "webp", "pdf"],
    "webp" := ["jpg", "png", "pdf"],
    "pdf" := ["docx", "jpg", "png"],
    "docx" := ["pdf"]
  ]

  const MAX_FILE_SIZE: int := 100 * 1024 * 1024
  const MAX_FILES_PER_REQUEST: int := 10
  const FILE_RETENTION_MINUTES: int := 60
  const RATE_LIMIT_PER_HOUR: nat := 50
  const INPUT_DIR: string := "/tmp/file_converter/input"
  const OUTPUT_DIR: string := "/tmp/file_converter/output"

  /** The settings that the environment overrides and that the modelled
      decisions read. `None` stands for an unset optional setting. */
  datatype Settings = Settings(
    REDIS_HOST: string,
    REDIS_PORT: int,
    REDIS_DB: int,
    REDIS_URL: Option<string>,
    CELERY_BROKER_URL: Option<string>,
    CELERY_RESULT_BACKEND: Option<string>,
    STORAGE_TYPE: string,
    ENABLE_RATE_LIMITING: bool)

  /** The defaults the settings class declares. */
  const DEFAULTS: Settings :=
    Settings("redis", 6379, 0, None, None, None, "local", true)

  /** Python truthiness of an optional string: set and non-empty. */
  predicate Truthy(o: Option<string>)
  {
    o.Some? && o.value != []
  }

  /** A pair the service offers: the source is a key of the table and the
      target is listed under it. */
  predicate IsSupported(source: string, target: string)
  {
    source in SUPPORTED_CONVERSIONS && target in SUPPORTED_CONVERSIONS[source]
  }

  /** `redis_url`: REDIS_URL when it is set and non-empty, otherwise a URL
      built from host, port and database number. */
  function RedisUrl(s: Settings): (r: string)
    ensures r != []
    ensures Truthy(s.REDIS_URL) ==> r == s.REDIS_URL.value
    ensures !Truthy(s.REDIS_URL) ==> StartsWith(r, "redis://" + s.REDIS_HOST + ":")
    ensures !Truthy(s.REDIS_URL) ==>
      r[|"redis://" + s.REDIS_HOST + ":"|..] == IntToString(s.REDIS_PORT) + "/" + IntToString(s.REDIS_DB)
  {
    if Truthy(s.REDIS_URL) then s.REDIS_URL.value
    else
      var prefix := "redis://" + s.REDIS_HOST + ":";
      var r := prefix + IntToString(s.REDIS_PORT) + "/" + IntToString(s.REDIS_DB);
      assert r[..|prefix|] == prefix;
      r
  }

  /** `celery_broker`: CELERY_BROKER_URL when set and non-empty, otherwise `redis_url`. */
  function CeleryBroker(s: Settings): (r: string)
    ensures r != []
    ensures Truthy(s.CELERY_BROKER_URL) ==> r == s.CELERY_BROKER_URL.value
    ensures !Truthy(s.CELERY_BROKER_URL) ==> r == RedisUrl(s)
  {
    if Truthy(s.CELERY_BROKER_URL) then s.CELERY_BROKER_URL.value else RedisUrl(s)
  }

  /** `celery_backend`: CELERY_RESULT_BACKEND when set and non-empty, otherwise `redis_url`. */
  function CeleryBackend(s: Settings): (r: string)
    ensures r != []
    ensures Truthy(s.CELERY_RESULT_BACKEND) ==> r == s.CELERY_RESULT_BACKEND.value
    ensures !Truthy(s.CELERY_RESULT_BACKEND) ==> r == RedisUrl(s)
  {
    if Truthy(s.CELERY_RESULT_BACKEND) then s.CELERY_RESULT_BACKEND.value else RedisUrl(s)
  }

  /** With nothing overridden, broker and result backend are both the
      Redis server `redis`, port 6379, database 0. */
  lemma DefaultUrls()
    ensures RedisUrl(DEFAULTS) == "redis://redis:6379/0"
    ensures CeleryBroker(DEFAULTS) == CeleryBackend(DEFAULTS) == "redis://redis:6379/0"
  {
    assert NatToString(6) == "6";
    assert NatToString(63) == "63";
    assert NatToString(637) == "637";
    assert NatToString(6379) == "6379";
  }

  /** The two tables agree: every source and every target of a supported
      conversion is an allowed extension. */
  lemma SupportedFormatsAreAllowed(source: string, target: string)
    requires IsSupported(source, target)
    ensures source in ALLOWED_EXTENSIONS && target in ALLOWED_EXTENSIONS
  {
  }

  /** No format is offered as a conversion to itself. */
  lemma NoConversionToItself(source: string)
    ensures !IsSupported(source, source)
  {
  }
}
