/** `RedactingFormatter`: a log formatter that renders a record with a fixed
    layout and then passes the whole rendered line through `filter_datum`,
    with the redaction text `***` and the separator `;`. */
module Formatter {
  import opened Text
  import opened Redaction
  import opened RedactionProperties

  /** `RedactingFormatter.REDACTION`. */
  const REDACTION: string := "***"
  /** `RedactingFormatter.SEPARATOR`. */
  const SEPARATOR: string := ";"
  /** Minimum width of the time stamp in the layout (`%(asctime)-15s`). */
  const ASCTIME_WIDTH: nat := 15

  /** The attributes of a log record that the layout uses. The time stamp is
      taken already rendered. */
  datatype LogRecord = LogRecord(name: string, levelname: string, asctime: string, message: string)

  /** `n` spaces. */
  function Spaces(n: nat): (s: string)
    ensures |s| == n && forall i :: 0 <= i < n ==> s[i] == ' '
  {
    if n == 0 then [] else [' '] + Spaces(n - 1)
  }

  /** `%-<width>s`: `s` left-justified in a field of at least `width`
      characters, padded with spaces on the right and never cut. */
  function PadRight(s: string, width: nat): (p: string)
    ensures |p| == if |s| < width then width else |s|
    ensures s <= p
    ensures forall i :: |s| <= i < |p| ==> p[i] == ' '
  {
    if |s| < width then s + Spaces(width - |s|) else s
  }

  /** The layout `[HOLBERTON] %(name)s %(levelname)s %(asctime)-15s: ` that
      comes before the message. */
  function Header(rec: LogRecord): string
  {
    "[HOLBERTON] " + rec.name + " " + rec.levelname + " " + PadRight(rec.asctime, ASCTIME_WIDTH) + ": "
  }

  /** The record rendered with the layout, before any redaction. */
  function Render(rec: LogRecord): string
  {
    Header(rec) + rec.message
  }

  /** A formatter holds the field list it was built with; nothing changes it
      afterwards. */
  datatype RedactingFormatter = RedactingFormatter(fields: seq<string>)
  {
    /** `format`: render the record, then filter the whole line. */
    function Format(rec: LogRecord): string
    {
      FilterDatum(fields, REDACTION, Render(rec), SEPARATOR)
    }
  }

  /** Padding adds only spaces, so it adds no `=`. */
  lemma PadRightAddsNoEquals(s: string, width: nat)
    requires '=' !in s
    ensures '=' !in PadRight(s, width)
  {
    var p := PadRight(s, width);
    forall i | 0 <= i < |p| ensures p[i] != '=' {
      if i < |s| {
        assert p[i] == s[i] && s[i] in s;
      }
    }
  }

  /** The header holds no `=` when the record's name, level and time stamp
      hold none. */
  lemma HeaderHasNoEquals(rec: LogRecord) returns (w: string)
    requires '=' !in rec.name && '=' !in rec.levelname && '=' !in rec.asctime
    ensures Header(rec) == w + [' '] && '=' !in w
  {
    var pad := PadRight(rec.asctime, ASCTIME_WIDTH);
    PadRightAddsNoEquals(rec.asctime, ASCTIME_WIDTH);
    w := "[HOLBERTON] " + rec.name + " " + rec.levelname + " " + pad + ":";
    assert Header(rec) == w + [' '];
    forall i | 0 <= i < |w| ensures w[i] != '=' {
      var a := "[HOLBERTON] " + rec.name + " " + rec.levelname + " ";
      if i < |a| {
        var b := "[HOLBERTON] " + rec.name;
        if i < |b| {
          if i >= 12 { assert w[i] == rec.name[i - 12] && rec.name[i - 12] in rec.name; }
        } else if |b| < i < |a| - 1 {
          assert w[i] == rec.levelname[i - |b| - 1] && rec.levelname[i - |b| - 1] in rec.levelname;
        }
      } else if i < |a| + |pad| {
        assert w[i] == pad[i - |a|] && pad[i - |a|] in pad;
      }
    }
  }

  /** `format` leaves the header alone and filters only the message, as long
      as the header holds no `=` and no field name holds a space (the header
      ends in a space, so no key can reach across it into the message). */
  lemma FormatFiltersOnlyMessage(fmt: RedactingFormatter, rec: LogRecord)
    requires '=' !in rec.name && '=' !in rec.levelname && '=' !in rec.asctime
    requires forall f :: f in fmt.fields ==> ' ' !in f
    ensures fmt.Format(rec) == Header(rec) + FilterDatum(fmt.fields, REDACTION, rec.message, SEPARATOR)
  {
    var w := HeaderHasNoEquals(rec);
    var alts := Alternatives(fmt.fields);
    forall f | f in alts ensures !OccursIn(f + "=", w) && ' ' !in f {
      AbsentCharNoOccurrence(f, '=', w);
    }
    CopiesPlainText(alts, REDACTION, w, ' ', rec.message, SEPARATOR);
    assert Render(rec) == w + [' '] + rec.message;
  }
}
