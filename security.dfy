/** Request validation and rate limiting (app/utils/security.py). A check
    either passes or rejects the request with a reason that fixes the HTTP
    status of the refusal. */
module Security {
  import opened Basics
  import opened PyText
  import opened PyPath
  import opened Config
  import FileUtils

  /** Why a request is refused. */
  datatype Rejection =
    | PathTraversal
    | NullByte
    | HiddenFile
    | ExtensionNotAllowed(ext: string)
    | FileTooLarge(size: int)
    | SourceNotSupported(source: string)
    | TargetNotSupported(source: string, target: string)
    | RateLimited
    | TooManyFiles
    | NoFiles
    | InvalidTargetFormat(target: string)

  /** The HTTP status each refusal is raised with. */
  function StatusCode(why: Rejection): (code: int)
    ensures code == 413 <==> why.FileTooLarge?
    ensures code == 429 <==> why.RateLimited?
    ensures code in {400, 413, 429}
  {
    match why
    case FileTooLarge(_) => 413
    case RateLimited => 429
    case _ => 400
  }

  /** The outcome of a check. */
  datatype Check = Pass | Reject(why: Rejection)

  /** `check_malicious_filename`: a traversal pattern is reported first, then
      a NUL character, then a leading dot. */
  function CheckMaliciousFilename(filename: string): (r: Check)
    ensures r.Pass? <==>
      !Occurs("..", filename) && '/' !in filename && '\\' !in filename
      && '\0' !in filename && !StartsWith(filename, ".")
    ensures r == Reject(PathTraversal) <==>
      Occurs("..", filename) || '/' in filename || '\\' in filename
    ensures r == Reject(NullByte) <==>
      !Occurs("..", filename) && '/' !in filename && '\\' !in filename && '\0' in filename
    ensures r.Reject? ==> r.why in {PathTraversal, NullByte, HiddenFile}
  {
    if Contains(filename, "..") || '/' in filename || '\\' in filename then Reject(PathTraversal)
    else if '\0' in filename then Reject(NullByte)
    else if StartsWith(filename, ".") then Reject(HiddenFile)
    else Pass
  }

  /** The extension the upload validator reads: the `pathlib` suffix,
      lower-cased, without its leading dots. */
  function UploadExtension(filename: string): (r: string)
    ensures '.' !in r
    ensures PathSuffix(filename) == [] ==> r == []
    ensures PathSuffix(filename) != [] ==> r == Lower(PathSuffix(filename)[1..])
  {
    LowerWithoutDot(PathSuffix(filename))
  }

  /** `validate_file_extension` */
  function ValidateFileExtension(filename: string): (r: Check)
    ensures r.Pass? <==> UploadExtension(filename) in ALLOWED_EXTENSIONS
    ensures r.Reject? ==> r.why == ExtensionNotAllowed(UploadExtension(filename))
  {
    var ext := UploadExtension(filename);
    if ext in ALLOWED_EXTENSIONS then Pass else Reject(ExtensionNotAllowed(ext))
  }
  /** `@@.png` passes the name checks. */
  lemma PassesAts()
    ensures CheckMaliciousFilename("@@.png").Pass?
  {
    var s := "@@.png";
    forall i | 0 <= i < |s|
      ensures !OccursAt("..", s, i)
    {
      assert s[i] != '.' || s[i + 1] != '.' || i + 2 > |s|;
    }
    forall k | 0 <= k < |s|
      ensures s[k] != '/' && s[k] != '\\' && s[k] != '\0'
    {
      assert k == 0 || k == 1 || k == 2 || k == 3 || k == 4 || k == 5;
    }
  }

  /** `@@.png` has the allowed extension `png`. */
  lemma AllowsAts()
    ensures ValidateFileExtension("@@.png").Pass?
  {
    SuffixOfAts();
    assert ".png"[1..] == "png";
    LowerPng();
  }

  /** `png` is already lower case. */
  lemma LowerPng()
    ensures Lower("png") == "png"
  {
    var low := Lower("png");
    assert low[0] == 'p' && low[1] == 'n' && low[2] == 'g';
  }

  /** The `pathlib` suffix of `@@.png` is `.png`. */
  lemma SuffixOfAts()
    ensures PathSuffix("@@.png") == ".png"
  {
    var s := "@@.png";
    NameOfAts();
    forall k | 2 < k < |s|
      ensures s[k] != '.'
    {
      assert k == 3 || k == 4 || k == 5;
    }
    RFindAt(s, '.', 2);
    assert SuffixStart(s) == 2;
    assert s[2..] == ".png";
  }

  /** The `pathlib` name of `@@.png` is itself. */
  lemma NameOfAts()
    ensures PathName("@@.png") == "@@.png"
  {
    var s := "@@.png";
    assert RStripSlashes(s) == s;
    NoSlashAts();
    assert s[0..] == s;
  }

  /** `validate_file_size`: only sizes strictly above the maximum are refused. */
  function ValidateFileSize(fileSize: int): (r: Check)
    ensures r.Pass? <==> fileSize <= MAX_FILE_SIZE
    ensures r.Reject? ==> r.why == FileTooLarge(fileSize) && StatusCode(r.why) == 413
  {
    if fileSize > MAX_FILE_SIZE then Reject(FileTooLarge(fileSize)) else Pass
  }

  /** `validate_upload_file` without the optional MIME check: the extension
      is checked before the size. */
  function ValidateUploadFile(filename: string, fileSize: int): (r: Check)
    ensures r.Pass? <==> ValidateFileExtension(filename).Pass? && fileSize <= MAX_FILE_SIZE
    ensures ValidateFileExtension(filename).Reject? ==> r == ValidateFileExtension(filename)
    ensures ValidateFileExtension(filename).Pass? ==> r == ValidateFileSize(fileSize)
  {
    var ext := ValidateFileExtension(filename);
    if ext.Reject? then ext else ValidateFileSize(fileSize)
  }

  /** `validate_conversion_format`: both formats are lower-cased; an unknown
      source is reported before an unsupported target. */
  function ValidateConversionFormat(sourceFormat: string, targetFormat: string): (r: Check)
    ensures r.Pass? <==> IsSupported(Lower(sourceFormat), Lower(targetFormat))
    ensures Lower(sourceFormat) !in SUPPORTED_CONVERSIONS ==>
      r == Reject(SourceNotSupported(Lower(sourceFormat)))
    ensures Lower(sourceFormat) in SUPPORTED_CONVERSIONS && r.Reject? ==>
      r == Reject(TargetNotSupported(Lower(sourceFormat), Lower(targetFormat)))
  {
    var s := Lower(sourceFormat);
    var t := Lower(targetFormat);
    if s !in SUPPORTED_CONVERSIONS then Reject(SourceNotSupported(s))
    else if t !in SUPPORTED_CONVERSIONS[s] then Reject(TargetNotSupported(s, t))
    else Pass
  }

  /** A name that passes the malicious-name check has the same extension
      under the `pathlib` rule the upload validator uses and under the
      `splitext` rule the worker dispatches on. */
  lemma ExtensionRulesAgree(filename: string)
    requires CheckMaliciousFilename(filename).Pass?
    ensures UploadExtension(filename) == FileUtils.GetFileExtension(filename)
  {
    assert '/' !in filename && (filename == [] || filename[0] != '.');
    PlainNameSuffix(filename);
    var e := SplitExt(filename).1;
    if PathSuffix(filename) != e {
      assert e[1..] == [];
      assert |Lower(e[1..])| == 0;
    }
  }

  /** Characters `sanitize_input` removes: C0 controls, DEL and C1 controls. */
  predicate IsControl(c: char)
  {
    c <= '\U{1F}' || ('\U{7F}' <= c <= '\U{9F}')
  }

  /** `sanitize_input`: control characters removed, then the first
      `maxLength` characters kept (Python slice semantics, so a negative
      bound counts from the end), then surrounding white space stripped. */
  function SanitizeInput(text: string, maxLength: int): (r: string)
    ensures forall c :: c in r ==> c in text && !IsControl(c)
    ensures 0 <= maxLength ==> |r| <= maxLength
    ensures r == [] || (!IsSpace(r[0]) && !IsSpace(r[|r| - 1]))
  {
    var kept := Filter(text, c => !IsControl(c));
    var cut := SliceTo(kept, maxLength);
    assert forall c :: c in cut ==> c in kept by {
      assert cut == kept[..|cut|];
    }
    Strip(cut)
  }

  /** The default bound of `sanitize_input`. */
  const DEFAULT_MAX_INPUT_LENGTH: int := 1000

  /** Text that is already clean and short enough comes back unchanged. */
  lemma {:induction false} SanitizeInputKeepsCleanText(text: string, maxLength: int)
    requires forall c :: c in text ==> !IsControl(c)
    requires |text| <= maxLength
    requires text == [] || (!IsSpace(text[0]) && !IsSpace(text[|text| - 1]))
    ensures SanitizeInput(text, maxLength) == text
  {
    FileUtils.FilterKeepsAll(text, c => !IsControl(c));
  }

  /** The timestamps of `ts` strictly after `cutoff`, in their order. */
  function Recent(ts: seq<int>, cutoff: int): (r: seq<int>)
    ensures |r| <= |ts|
    ensures forall i :: 0 <= i < |r| ==> r[i] > cutoff
    ensures forall t :: t in ts && t > cutoff <==> t in r
    ensures forall t :: multiset(r)[t] == if t > cutoff then multiset(ts)[t] else 0
  {
    if ts == [] then []
    else
      assert ts == [ts[0]] + ts[1..];
      if ts[0] > cutoff then [ts[0]] + Recent(ts[1..], cutoff)
      else Recent(ts[1..], cutoff)
  }

  /** Pruning keeps the order of the log: a log read in two parts is
      pruned part by part, and a single time stays exactly when it is
      after the cutoff. */
  lemma {:induction false} RecentOfConcat(a: seq<int>, b: seq<int>, cutoff: int)
    ensures Recent(a + b, cutoff) == Recent(a, cutoff) + Recent(b, cutoff)
    ensures |a| == 1 ==> Recent(a, cutoff) == if a[0] > cutoff then a else []
  {
    if a == [] {
      assert a + b == b;
    } else {
      assert (a + b)[1..] == a[1..] + b;
      RecentOfConcat(a[1..], b, cutoff);
      if |a| == 1 {
        assert a[1..] == [];
      }
    }
  }

  /** Length of the sliding window, in seconds. */
  const WINDOW_SECONDS: int := 3600

  /** The per-client request log behind `check_rate_limit`. */
  class RateLimiter {
    /** Accepted request times per client address. */
    var requests: map<string, seq<int>>
    /** Requests a client may make per window. */
    const limit: nat
    /** Whether limiting is switched on. */
    const enabled: bool

    /** No client's log holds more than `limit` times. */
    ghost predicate Valid()
      reads this
    {
      forall ip :: ip in requests ==> |requests[ip]| <= limit
    }

    constructor (limit: nat, enabled: bool)
      ensures Valid() && requests == map[]
      ensures this.limit == limit && this.enabled == enabled
    {
      this.limit := limit;
      this.enabled := enabled;
      requests := map[];
    }

    /** The log of `ip`, empty for a client not seen before. */
    function Log(ip: string): seq<int>
      reads this
    {
      if ip in requests then requests[ip] else []
    }

    /** `check_rate_limit` at time `now`: with limiting off it passes and
        changes nothing; otherwise the client's log is pruned to the last
        hour, and the request is refused when the pruned log is full and
        recorded when it is not. Other clients' logs are untouched. */
    method CheckRateLimit(ip: string, now: int) returns (r: Check)
      requires Valid()
      modifies this
      ensures Valid()
      ensures !enabled ==> r == Pass && requests == old(requests)
      ensures enabled ==>
        var kept := Recent(old(Log(ip)), now - WINDOW_SECONDS);
        (|kept| >= limit ==> r == Reject(RateLimited) && requests == old(requests)[ip := kept])
        && (|kept| < limit ==> r == Pass && requests == old(requests)[ip := kept + [now]])
    {
      if !enabled {
        return Pass;
      }
      var kept := Recent(Log(ip), now - WINDOW_SECONDS);
      requests := requests[ip := kept];
      if |kept| >= limit {
        return Reject(RateLimited);
      }
      requests := requests[ip := kept + [now]];
      return Pass;
    }
  }
}
