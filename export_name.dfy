/**
 * The file name of an exported image (piece.js `saveCanvasToFile`): the ISO timestamp with
 * every `:` and `.` turned into `-` (`replace(/[:.]/g, '-')`), wrapped as `tissues-<ts>.jpg`.
 * The clock is not modelled; the timestamp is a parameter.
 */
module ExportName {
  import opened Wrappers

  /** A character matched by the class `[:.]`. */
  predicate IsReplaced(ch: char) {
    ch == ':' || ch == '.'
  }

  /** `ts.replace(/[:.]/g, '-')`: same length, `-` where a `:` or `.` stood, all else kept. */
  function Sanitize(ts: string): (r: string)
    ensures |r| == |ts|
    ensures forall i :: 0 <= i < |ts| ==> r[i] == (if IsReplaced(ts[i]) then '-' else ts[i])
    ensures forall i :: 0 <= i < |r| ==> !IsReplaced(r[i])
  {
    if ts == [] then [] else [if IsReplaced(ts[0]) then '-' else ts[0]] + Sanitize(ts[1..])
  }

  const Prefix: string := "tissues-"
  const Extension: string := ".jpg"

  /** The `filename` handed to `saveCanvas`. */
  function ExportFilename(ts: string): (name: string)
    ensures |name| == |ts| + |Prefix| + |Extension|
  {
    Prefix + Sanitize(ts) + Extension
  }

  /** Reads the sanitized timestamp back out of an export file name; `None` for other names. */
  function TimestampOf(name: string): Option<string> {
    if |name| >= |Prefix| + |Extension| && name[..|Prefix|] == Prefix
       && name[|name| - |Extension|..] == Extension
    then Some(name[|Prefix|..|name| - |Extension|])
    else None
  }

  /** Sanitizing twice changes nothing more. */
  lemma SanitizeIdempotent(ts: string)
    ensures Sanitize(Sanitize(ts)) == Sanitize(ts)
  {
  }

  /**
   * The file name starts with `tissues-`, ends with `.jpg`, and between them carries the
   * sanitized timestamp, which reading the name back recovers.
   */
  lemma FilenameRoundTrip(ts: string)
    ensures var name := ExportFilename(ts);
      name[..|Prefix|] == Prefix && name[|name| - |Extension|..] == Extension &&
      TimestampOf(name) == Some(Sanitize(ts))
  {
  }

  /** The only `.` of an export file name is the one that starts its extension. */
  lemma FilenameSingleDot(ts: string, i: int)
    requires 0 <= i < |ExportFilename(ts)| && ExportFilename(ts)[i] == '.'
    ensures i == |ExportFilename(ts)| - |Extension|
  {
  }

  /** Two timestamps give the same file name exactly when they agree once sanitized. */
  lemma FilenameInjective(a: string, b: string)
    ensures ExportFilename(a) == ExportFilename(b) <==> Sanitize(a) == Sanitize(b)
  {
    FilenameRoundTrip(a);
    FilenameRoundTrip(b);
  }

  predicate IsDigit(ch: char) {
    '0' <= ch <= '9'
  }

  /**
   * The shape of `Date.prototype.toISOString()` for years 0 to 9999:
   * `YYYY-MM-DDTHH:mm:ss.sssZ`, 24 characters.
   */
  predicate IsIsoTimestamp(ts: string) {
    |ts| == 24 &&
    ts[4] == '-' && ts[7] == '-' && ts[10] == 'T' && ts[13] == ':' && ts[16] == ':' &&
    ts[19] == '.' && ts[23] == 'Z' &&
    forall i :: 0 <= i < 23 && i !in {4, 7, 10, 13, 16, 19} ==> IsDigit(ts[i])
  }

  /**
   * For an ISO timestamp exactly the two `:` and the `.` change, the file name is 36
   * characters long, and the time reads `HH-mm-ss-sss`.
   */
  lemma IsoFilename(ts: string)
    requires IsIsoTimestamp(ts)
    ensures |ExportFilename(ts)| == 36
    ensures forall i :: 0 <= i < 24 ==> (Sanitize(ts)[i] != ts[i] <==> i in {13, 16, 19})
    ensures Sanitize(ts)[13] == '-' && Sanitize(ts)[16] == '-' && Sanitize(ts)[19] == '-'
  {
  }
}
