/** The personal-data fields of a user row, the log line written for each row,
    and what that line becomes once filtered with those fields. `EntryParts`,
    `TemplateKeys`, `EntryStep` and `LastEntryStep` only regroup strings for
    the verifier. */
module UserRows {
  import opened Text
  import opened Redaction
  import opened RedactionProperties
  import opened Formatter

  /** The columns that count as personal data. */
  const PII_FIELDS: seq<string> := ["name", "email", "phone", "ssn", "password"]

  /** One row of the `users` table, in the order the query selects it. */
  datatype UserRow = UserRow(
    name: string, email: string, phone: string, ssn: string, password: string,
    ip: string, lastLogin: string, userAgent: string)

  /** The log line written for a row. */
  function RowMessage(row: UserRow): string
  {
    "name=" + row.name + "; email=" + row.email + "; phone=" + row.phone + "; ssn=" + row.ssn
      + "; password=" + row.password + "; ip=" + row.ip + "; last_login=" + row.lastLogin
      + "; user_agent=" + row.userAgent + ";"
  }

  /** The same row with every personal-data column replaced by `r`. */
  function Masked(row: UserRow, r: string): (m: UserRow)
    ensures m.ip == row.ip && m.lastLogin == row.lastLogin && m.userAgent == row.userAgent
  {
    row.(name := r, email := r, phone := r, ssn := r, password := r)
  }

  /** A line is a list of `key=value;` entries joined by single spaces. */
  function Entry(key: string, value: string): string
  {
    key + "=" + value + ";"
  }

  function Join(entries: seq<(string, string)>): string
  {
    if |entries| == 0 then []
    else if |entries| == 1 then Entry(entries[0].0, entries[0].1)
    else Entry(entries[0].0, entries[0].1) + " " + Join(entries[1..])
  }

  /** The entries of the log line of a row, in the order of the template. */
  function Entries(row: UserRow): seq<(string, string)>
  {
    [("name", row.name), ("email", row.email), ("phone", row.phone), ("ssn", row.ssn),
     ("password", row.password), ("ip", row.ip), ("last_login", row.lastLogin),
     ("user_agent", row.userAgent)]
  }

  /** An entry whose key is a personal-data field: its value is at least one
      character and reaches the `;` that closes the entry without a newline. */
  predicate SecretEntryOk(e: (string, string))
  {
    |e.1| >= 1 && '\n' !in e.1 && ';' !in e.1
  }

  /** An entry whose key is not a personal-data field: no field name is a
      suffix of the key, and no `field=` occurs in the value. */
  predicate PlainEntryOk(e: (string, string))
  {
    '=' !in e.0 && ' ' !in e.0
      && forall f :: f in PII_FIELDS ==> !IsSuffix(f, e.0) && !OccursIn(f + "=", e.1)
  }

  predicate EntryOk(e: (string, string))
  {
    if e.0 in PII_FIELDS then SecretEntryOk(e) else PlainEntryOk(e)
  }

  /** An entry as the filter leaves it. */
  function MaskEntry(e: (string, string), r: string): (m: (string, string))
    ensures m.0 == e.0
  {
    if e.0 in PII_FIELDS then (e.0, r) else e
  }

  function MaskEntries(entries: seq<(string, string)>, r: string): (m: seq<(string, string)>)
    ensures |m| == |entries|
    ensures forall i :: 0 <= i < |m| ==> m[i] == MaskEntry(entries[i], r)
  {
    if entries == [] then [] else [MaskEntry(entries[0], r)] + MaskEntries(entries[1..], r)
  }

  lemma PiiHasNoEqualsOrSpace()
    ensures NoEquals(PII_FIELDS) && Alternatives(PII_FIELDS) == PII_FIELDS
    ensures forall f :: f in PII_FIELDS ==> ' ' !in f
  {
  }

  /** A value without `;` holds none after its first character either. */
  lemma NoSeparatorInTail(v: string)
    requires |v| >= 1 && ';' !in v
    ensures ';' !in v[1..]
  {
    forall j | 0 <= j < |v| - 1 ensures v[1..][j] != ';' {
      assert v[1..][j] == v[j + 1] && v[j + 1] in v;
    }
  }

  lemma EntryParts(key: string, value: string, post: string)
    ensures Entry(key, value) + " " + post == key + "=" + value + [';'] + ([] + [' '] + post)
    ensures Entry(key, value) == key + "=" + value + [';'] + []
    ensures Entry(key, value) + " " + post == Entry(key, value) + [' '] + post
  {
  }

  /** The filter rewrites an entry followed by a space and goes on with the
      text after the space. */
  lemma RedactsEntry(r: string, e: (string, string), post: string)
    requires EntryOk(e)
    ensures Redact(PII_FIELDS, r, Entry(e.0, e.1) + " " + post, SEPARATOR)
      == Entry(MaskEntry(e, r).0, MaskEntry(e, r).1) + " " + Redact(PII_FIELDS, r, post, SEPARATOR)
  {
    PiiHasNoEqualsOrSpace();
    EntryParts(e.0, e.1, post);
    EntryParts(e.0, r, Redact(PII_FIELDS, r, post, SEPARATOR));
    if e.0 in PII_FIELDS {
      NoSeparatorInTail(e.1);
      RedactsField(PII_FIELDS, r, e.0, e.1, ';', [] + [' '] + post);
      forall f | f in PII_FIELDS ensures !OccursIn(f + "=", []) && ' ' !in f {
        AbsentCharNoOccurrence(f, '=', []);
      }
      CopiesPlainText(PII_FIELDS, r, [], ' ', post, SEPARATOR);
    } else {
      var w := Entry(e.0, e.1);
      forall f | f in PII_FIELDS ensures !OccursIn(f + "=", w) && ' ' !in f {
        NoOccurrenceExtends(f + "=", e.1, ';');
        KeyValueOccurrence(f, e.0, e.1 + ";");
        assert w == e.0 + "=" + (e.1 + ";");
      }
      CopiesPlainText(PII_FIELDS, r, w, ' ', post, SEPARATOR);
    }
  }

  /** The filter rewrites the last entry of a line. */
  lemma RedactsLastEntry(r: string, e: (string, string))
    requires EntryOk(e)
    ensures Redact(PII_FIELDS, r, Entry(e.0, e.1), SEPARATOR) == Entry(MaskEntry(e, r).0, MaskEntry(e, r).1)
  {
    PiiHasNoEqualsOrSpace();
    EntryParts(e.0, e.1, []);
    EntryParts(e.0, r, []);
    if e.0 in PII_FIELDS {
      NoSeparatorInTail(e.1);
      RedactsField(PII_FIELDS, r, e.0, e.1, ';', []);
      assert Redact(PII_FIELDS, r, [], SEPARATOR) == [];
    } else {
      var w := Entry(e.0, e.1);
      forall f | f in PII_FIELDS ensures !OccursIn(f + "=", w) {
        NoOccurrenceExtends(f + "=", e.1, ';');
        KeyValueOccurrence(f, e.0, e.1 + ";");
        assert w == e.0 + "=" + (e.1 + ";");
      }
      UnchangedWithoutKey(PII_FIELDS, r, w, SEPARATOR);
    }
  }

  /** Filtering a line of entries with the personal-data fields masks exactly
      the entries whose key is one of them, and keeps every other entry. */
  lemma {:induction false} RedactsJoin(r: string, entries: seq<(string, string)>)
    requires forall i :: 0 <= i < |entries| ==> EntryOk(entries[i])
    ensures Redact(PII_FIELDS, r, Join(entries), SEPARATOR) == Join(MaskEntries(entries, r))
    decreases |entries|
  {
    var m := MaskEntries(entries, r);
    if |entries| == 0 {
      assert Redact(PII_FIELDS, r, [], SEPARATOR) == [];
    } else if |entries| == 1 {
      RedactsLastEntry(r, entries[0]);
    } else {
      RedactsEntry(r, entries[0], Join(entries[1..]));
      RedactsJoin(r, entries[1..]);
      assert m[1..] == MaskEntries(entries[1..], r);
    }
  }

  /** The line template written out is the row's entries joined by spaces. */
  lemma RowMessageIsJoin(row: UserRow)
    ensures RowMessage(row) == Join(Entries(row))
  {
    var es := Entries(row);
    var p1 := "name=" + row.name;
    var p2 := p1 + "; email=" + row.email;
    var p3 := p2 + "; phone=" + row.phone;
    var p4 := p3 + "; ssn=" + row.ssn;
    TemplateKeys();
    TailIsJoin(p4, row);
    assert es[3..][1..] == es[4..];
    EntryStep(p3, "; ssn=", "ssn", row.ssn, Join(es[4..]));
    assert es[2..][1..] == es[3..];
    EntryStep(p2, "; phone=", "phone", row.phone, Join(es[3..]));
    assert es[1..][1..] == es[2..];
    EntryStep(p1, "; email=", "email", row.email, Join(es[2..]));
    assert Entry("name", row.name) + " " + Join(es[1..]) == p1 + ";" + " " + Join(es[1..]);
  }

  /** The last four entries of the template, after any prefix `p`. */
  lemma TailIsJoin(p: string, row: UserRow)
    ensures p + ";" + " " + Join(Entries(row)[4..])
      == p + "; password=" + row.password + "; ip=" + row.ip + "; last_login=" + row.lastLogin
         + "; user_agent=" + row.userAgent + ";"
  {
    var es := Entries(row);
    var p5 := p + "; password=" + row.password;
    var p6 := p5 + "; ip=" + row.ip;
    var p7 := p6 + "; last_login=" + row.lastLogin;
    TemplateKeys();
    assert es[7..] == [("user_agent", row.userAgent)];
    LastEntryStep(p7, "; user_agent=", "user_agent", row.userAgent);
    assert es[6..][1..] == es[7..];
    EntryStep(p6, "; last_login=", "last_login", row.lastLogin, Join(es[7..]));
    assert es[5..][1..] == es[6..];
    EntryStep(p5, "; ip=", "ip", row.ip, Join(es[6..]));
    assert es[4..][1..] == es[5..];
    EntryStep(p, "; password=", "password", row.password, Join(es[5..]));
  }

  /** The pieces of the template between the values. */
  lemma TemplateKeys()
    ensures "name" + "=" == "name="
    ensures "; email=" == "; " + "email" + "=" && "; phone=" == "; " + "phone" + "="
    ensures "; ssn=" == "; " + "ssn" + "=" && "; password=" == "; " + "password" + "="
    ensures "; ip=" == "; " + "ip" + "=" && "; last_login=" == "; " + "last_login" + "="
    ensures "; user_agent=" == "; " + "user_agent" + "="
  {
  }

  /** One entry of the template, moved from the joined tail to the prefix. */
  lemma EntryStep(p: string, lit: string, key: string, value: string, rest: string)
    requires lit == "; " + key + "="
    ensures p + ";" + " " + (Entry(key, value) + " " + rest) == p + lit + value + ";" + " " + rest
  {
  }

  /** The last entry of the template. */
  lemma LastEntryStep(p: string, lit: string, key: string, value: string)
    requires lit == "; " + key + "="
    ensures p + ";" + " " + Entry(key, value) == p + lit + value + ";"
  {
  }

  /** A personal-data value the filter can mask: at least one character, no
      `;` and no newline. */
  predicate SecretValueOk(v: string)
  {
    |v| >= 1 && '\n' !in v && ';' !in v
  }

  /** A value that no personal-data key occurs in. */
  predicate PlainValueOk(v: string)
  {
    forall f :: f in PII_FIELDS ==> !OccursIn(f + "=", v)
  }

  /** None of the other column names ends in a personal-data field name. */
  lemma PlainKeysOk()
    ensures forall f :: f in PII_FIELDS ==> !IsSuffix(f, "ip") && !IsSuffix(f, "last_login") && !IsSuffix(f, "user_agent")
    ensures '=' !in "last_login" && ' ' !in "last_login" && '=' !in "user_agent" && ' ' !in "user_agent"
    ensures "ip" !in PII_FIELDS && "last_login" !in PII_FIELDS && "user_agent" !in PII_FIELDS
  {
    NotSuffixOfKey("ip");
    NotSuffixOfKey("last_login");
    NotSuffixOfKey("user_agent");
  }

  /** A key ending in `p`, `n` or `t` ends in none of the personal-data field
      names, whose last letters are `e`, `l`, `n` (only `ssn`) and `d`. */
  lemma NotSuffixOfKey(key: string)
    requires |key| >= 2 && key[|key| - 1] in "pnt" && key[|key| - 2] != 's'
    ensures forall f :: f in PII_FIELDS ==> !IsSuffix(f, key)
  {
    forall f | f in PII_FIELDS ensures !IsSuffix(f, key) {
      if |f| <= |key| {
        var tail := key[|key| - |f|..];
        assert tail[|f| - 1] == key[|key| - 1] && tail[|f| - 2] == key[|key| - 2];
      }
    }
  }

  /** Masking the entries of a row is masking the row. */
  lemma MaskedEntries(row: UserRow, r: string)
    ensures MaskEntries(Entries(row), r) == Entries(Masked(row, r))
  {
    PlainKeysOk();
  }

  /** End to end: the line of a row, filtered with the personal-data fields,
      is the line of the same row with those five columns replaced by the
      redaction text and the other three columns unchanged. */
  lemma RowRedacted(row: UserRow, r: string)
    requires SecretValueOk(row.name) && SecretValueOk(row.email) && SecretValueOk(row.phone)
    requires SecretValueOk(row.ssn) && SecretValueOk(row.password)
    requires PlainValueOk(row.ip) && PlainValueOk(row.lastLogin) && PlainValueOk(row.userAgent)
    ensures FilterDatum(PII_FIELDS, r, RowMessage(row), SEPARATOR) == RowMessage(Masked(row, r))
  {
    PiiHasNoEqualsOrSpace();
    PlainKeysOk();
    var es := Entries(row);
    assert forall i :: 0 <= i < |es| ==> EntryOk(es[i]);
    RowMessageIsJoin(row);
    RowMessageIsJoin(Masked(row, r));
    RedactsJoin(r, es);
    MaskedEntries(row, r);
  }

  /** What the logger prints for a row: the header untouched, then the row's
      line with the personal-data columns masked. */
  lemma LoggedRowRedacted(rec: LogRecord, row: UserRow)
    requires '=' !in rec.name && '=' !in rec.levelname && '=' !in rec.asctime
    requires rec.message == RowMessage(row)
    requires SecretValueOk(row.name) && SecretValueOk(row.email) && SecretValueOk(row.phone)
    requires SecretValueOk(row.ssn) && SecretValueOk(row.password)
    requires PlainValueOk(row.ip) && PlainValueOk(row.lastLogin) && PlainValueOk(row.userAgent)
    ensures RedactingFormatter(PII_FIELDS).Format(rec) == Header(rec) + RowMessage(Masked(row, REDACTION))
  {
    PiiHasNoEqualsOrSpace();
    FormatFiltersOnlyMessage(RedactingFormatter(PII_FIELDS), rec);
    RowRedacted(row, REDACTION);
  }
}
