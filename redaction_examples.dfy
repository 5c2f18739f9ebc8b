/** How the pattern behaves on the messages a reader would try first: keys
    that are not anchored to the start of a token, an empty field list, values
    that end at the first separator, fields that occur more than once, and
    field names holding `=`, where the order of the list decides. The
    `...Parts` lemmas only spell out facts about string literals (slices and
    regroupings) for the verifier; they state nothing about the logger. */
module RedactionExamples {
  import opened Text
  import opened Redaction
  import opened RedactionProperties

  /** A key is recognised wherever it ends right before `=`, not only at the
      start of a token: in `wf=v<c>`, where `wf` holds no `=`, the scan copies
      `w` and then rewrites the match through `f`, unless a longer
      alternative ending in `f` matches from inside `w` first. Either way the
      whole key `wf` stays in front of the redaction. */
  lemma RedactsUnanchoredKey(alts: seq<string>, r: string, w: string, f: string, v: string, c: char, post: string)
    requires NoEquals(alts) && f in alts && '=' !in w
    requires forall g :: g in alts && |g| > |f| ==> !IsSuffix(g, w + f)
    requires |v| >= 1 && '\n' !in v && c !in v[1..]
    ensures Redact(alts, r, w + f + "=" + v + [c] + post, [c]) == w + f + "=" + r + [c] + Redact(alts, r, post, [c])
  {
    var t := w + f + "=" + v + [c] + post;
    NoMatchBeforeKey(alts, w, f, v, c, post);
    CopiesUnmatchedPrefix(alts, r, t, [c], |w|);
    RedactsField(alts, r, f, v, c, post);
    KeyedTextRegroup(w, f, v, c, post, r, Redact(alts, r, post, [c]));
  }

  /** Before the key `wf`, no alternative is followed by `=`: the only `=` in
      reach is the one after `wf`, and only a suffix of `wf` ends there. */
  lemma NoMatchBeforeKey(alts: seq<string>, w: string, f: string, v: string, c: char, post: string)
    requires NoEquals(alts) && f in alts && '=' !in w
    requires forall g :: g in alts && |g| > |f| ==> !IsSuffix(g, w + f)
    ensures UnmatchedBefore(alts, w + f + "=" + v + [c] + post, [c], |w|)
  {
    var t := w + f + "=" + v + [c] + post;
    var wf := w + f;
    assert '=' !in wf by {
      forall j | 0 <= j < |wf| ensures wf[j] != '=' {
        if j < |w| { assert wf[j] == w[j] && w[j] in w; } else { assert wf[j] == f[j - |w|] && f[j - |w|] in f; }
      }
    }
    assert t[..|wf|] == wf && t[|wf|] == '=';
    forall p | 0 <= p < |w| ensures !MatchStartsAt(alts, t, [c], p) {
      forall g | g in alts ensures !(g + "=" <= t[p..]) {
        if p + |g| < |wf| {
          assert t[p..][|g|] == wf[p + |g|] && wf[p + |g|] in wf;
        } else if p + |g| == |wf| {
          assert t[p..][..|g|] == wf[p..] && !IsSuffix(g, wf);
        } else {
          assert t[p..][|wf| - p] == '=' && g[|wf| - p] in g;
        }
      }
    }
  }

  /** The regroupings of `w + f=v<c>post` used above. */
  lemma KeyedTextRegroup(w: string, f: string, v: string, c: char, post: string, r: string, y: string)
    ensures (w + f + "=" + v + [c] + post)[..|w|] == w
    ensures (w + f + "=" + v + [c] + post)[|w|..] == f + "=" + v + [c] + post
    ensures w + (f + "=" + r + [c] + y) == w + f + "=" + r + [c] + y
  {
    assert w + f + "=" + v + [c] + post == w + (f + "=" + v + [c] + post);
  }

  /** With `["name"]`, `username=bob;` becomes `username=***;`. */
  lemma UsernameIsRedactedByName()
    ensures FilterDatum(["name"], "***", "username=bob;", ";") == "username=***;"
  {
    assert Alternatives(["name"]) == ["name"] && NoEquals(["name"]);
    UsernameParts();
    RedactsUnanchoredKey(["name"], "***", "user", "name", "bob", ';', "");
    assert Redact(["name"], "***", "", ";") == "";
  }

  lemma UsernameParts()
    ensures '=' !in "user" && '\n' !in "bob" && ';' !in "bob"[1..]
    ensures "username=bob;" == "user" + "name" + "=" + "bob" + [';'] + ""
    ensures "user" + "name" + "=" + "***" + [';'] + "" == "username=***;"
  {
  }

  /** An empty field list builds the pattern `()=.+?SEP`: every `=value<c>`
      after a key without `=` is redacted, whatever the key. */
  lemma EmptyFieldsRedactEveryValue(r: string, key: string, v: string, c: char, post: string)
    requires '=' !in key
    requires |v| >= 1 && '\n' !in v && c !in v[1..]
    ensures FilterDatum([], r, key + "=" + v + [c] + post, [c])
      == key + "=" + r + [c] + FilterDatum([], r, post, [c])
  {
    assert Alternatives([]) == [""] && NoEquals([""]);
    assert key + "" == key;
    RedactsUnanchoredKey([""], r, key, "", v, c, post);
  }

  /** With no fields at all, `a=b;` becomes `a=***;`. */
  lemma EmptyFieldsExample()
    ensures FilterDatum([], "***", "a=b;", ";") == "a=***;"
  {
    EmptyFieldsParts();
    EmptyFieldsRedactEveryValue("***", "a", "b", ';', "");
    assert Redact([""], "***", "", ";") == "";
  }

  lemma EmptyFieldsParts()
    ensures "a=b;" == "a" + "=" + "b" + [';'] + ""
    ensures "a" + "=" + "***" + [';'] + "" == "a=***;"
  {
  }

  /** A listed field's value is replaced, its key and separator kept. */
  lemma PasswordRedacted()
    ensures FilterDatum(["password"], "***", "password=hunter2;", ";") == "password=***;"
  {
    var alts := ["password"];
    assert Alternatives(alts) == alts && NoEquals(alts);
    PasswordParts();
    RedactsField(alts, "***", "password", "hunter2", ';', "");
    assert Redact(alts, "***", "", ";") == "";
  }

  lemma PasswordParts()
    ensures '\n' !in "hunter2" && ';' !in "hunter2"[1..]
    ensures "password=hunter2;" == "password" + "=" + "hunter2" + [';'] + ""
    ensures "password" + "=" + "***" + [';'] + "" == "password=***;"
  {
  }

  /** The value ends at the first separator: the next field is left alone. */
  lemma ValueEndsAtFirstSeparator()
    ensures FilterDatum(["password"], "***", "password=hunter2;email=x;", ";") == "password=***;email=x;"
  {
    var alts := ["password"];
    assert Alternatives(alts) == alts && NoEquals(alts);
    FirstSeparatorParts();
    RedactsField(alts, "***", "password", "hunter2", ';', "email=x;");
    UnchangedWithoutKey(alts, "***", "email=x;", ";");
  }

  lemma FirstSeparatorParts()
    ensures '\n' !in "hunter2" && ';' !in "hunter2"[1..]
    ensures "password=hunter2;email=x;" == "password" + "=" + "hunter2" + [';'] + "email=x;"
    ensures "password" + "=" + "***" + [';'] + "email=x;" == "password=***;email=x;"
    ensures !OccursIn("password=", "email=x;")
  {
    AbsentHeadNoOccurrence("password=", "email=x;");
  }

  /** An empty value cannot match (`.+?` needs one character), so the value
      runs on to the next separator and takes it with it. */
  lemma EmptyValueAbsorbsNextField()
    ensures FilterDatum(["password"], "***", "password=;x;", ";") == "password=***;"
  {
    var alts := ["password"];
    assert Alternatives(alts) == alts && NoEquals(alts);
    EmptyValueParts();
    RedactsField(alts, "***", "password", ";x", ';', "");
    assert Redact(alts, "***", "", ";") == "";
  }

  lemma EmptyValueParts()
    ensures '\n' !in ";x" && ';' !in ";x"[1..]
    ensures "password=;x;" == "password" + "=" + ";x" + [';'] + ""
    ensures "password" + "=" + "***" + [';'] + "" == "password=***;"
  {
  }

  /** Every occurrence of a field is redacted, left to right. */
  lemma RepeatedFieldRedactedEachTime()
    ensures FilterDatum(["password"], "***", "password=a;password=b;", ";") == "password=***;password=***;"
  {
    var alts := ["password"];
    assert Alternatives(alts) == alts && NoEquals(alts);
    RepeatedFieldParts();
    RedactsField(alts, "***", "password", "a", ';', "password=b;");
    RedactsField(alts, "***", "password", "b", ';', "");
    assert Redact(alts, "***", "", ";") == "";
  }

  lemma RepeatedFieldParts()
    ensures "password=a;password=b;" == "password" + "=" + "a" + [';'] + "password=b;"
    ensures "password=b;" == "password" + "=" + "b" + [';'] + ""
    ensures "password" + "=" + "***" + [';'] + ("password" + "=" + "***" + [';'] + "")
      == "password=***;password=***;"
  {
  }

  /** When a field name holds `=`, the order of the field list decides the
      match. With `a=b` listed first, the match runs through `a=b` and the
      value `;x` takes the whole message; the key written back is still `a`,
      the text before the first `=`. */
  lemma LongerFieldFirstWins()
    ensures FilterDatum(["a=b", "a"], "***", "a=b=;x;", ";") == "a=***;"
  {
    var alts := ["a=b", "a"];
    var t := "a=b=;x;";
    LongerFieldMatch();
    OrderParts();
    assert MatchLength(Match("a=b", 2), ";") == 7;
    RewritesMatch(alts, "***", t, ";", Match("a=b", 2));
    assert Redact(alts, "***", "", ";") == "";
  }

  /** The match of `["a=b", "a"]` at the start of `a=b=;x;`. */
  lemma LongerFieldMatch()
    ensures FirstMatch(["a=b", "a"], "a=b=;x;", ";") == Some(Match("a=b", 2))
  {
    OrderParts();
    ValueLenIs(";x;", ";", 2);
    FirstMatchEarliest(["a=b", "a"], "a=b=;x;", ";", 0);
  }

  /** With `a` listed first, the match runs through `a` with the value `b=`,
      and the rest `x;` is copied. */
  lemma ShorterFieldFirstWins()
    ensures FilterDatum(["a", "a=b"], "***", "a=b=;x;", ";") == "a=***;x;"
  {
    var alts := ["a", "a=b"];
    var t := "a=b=;x;";
    ShorterFieldMatch();
    OrderParts();
    assert MatchLength(Match("a", 2), ";") == 5;
    RewritesMatch(alts, "***", t, ";", Match("a", 2));
    assert Redact(alts, "***", t, ";") == "a" + "=" + "***" + ";" + Redact(alts, "***", "x;", ";");
    TailKept();
  }

  /** Neither `a=` nor `a=b=` occurs in `x;`, so it is copied. */
  lemma TailKept()
    ensures Redact(["a", "a=b"], "***", "x;", ";") == "x;"
  {
    var alts := ["a", "a=b"];
    assert Alternatives(alts) == alts;
    forall f | f in alts ensures !OccursIn(f + "=", "x;") {
      AbsentHeadNoOccurrence(f + "=", "x;");
    }
    UnchangedWithoutKey(alts, "***", "x;", ";");
  }

  /** One rewriting step of the scan, with the key taken as the code takes it. */
  lemma RewritesMatch(alts: seq<string>, r: string, t: string, sep: string, m: Match)
    requires FirstMatch(alts, t, sep) == Some(m) && MatchLength(m, sep) <= |t|
    ensures Redact(alts, r, t, sep) == KeyOf(t[..MatchLength(m, sep)]) + "=" + r + sep + Redact(alts, r, t[MatchLength(m, sep)..], sep)
  {
  }

  /** The match of `["a", "a=b"]` at the start of `a=b=;x;`. */
  lemma ShorterFieldMatch()
    ensures FirstMatch(["a", "a=b"], "a=b=;x;", ";") == Some(Match("a", 2))
  {
    OrderParts();
    ValueLenIs("b=;x;", ";", 2);
    FirstMatchEarliest(["a", "a=b"], "a=b=;x;", ";", 0);
  }

  lemma OrderParts()
    ensures "a=b=;x;"[4..] == ";x;" && "a=b=;x;"[2..] == "b=;x;"
    ensures "a=b=;x;"[..7] == "a=b=;x;" && "a=b=;x;"[7..] == "" && "a=b=;x;"[5..] == "x;"
    ensures "a=b=;x;"[..5] == "a=b=;" && KeyOf("a=b=;") == "a" && KeyOf("a=b=;x;") == "a"
    ensures "a" + "=" + "***" + ";" + "" == "a=***;"
    ensures ValueOk(";x;", ";", 2) && !ValueOk(";x;", ";", 1)
    ensures ValueOk("b=;x;", ";", 2) && !ValueOk("b=;x;", ";", 1)
    ensures "a" + "=" + "***" + ";" + "x;" == "a=***;x;"
  {
    assert ";x;"[1..][0] == 'x';
    assert "b=;x;"[1..] == "=;x;" && "=;x;"[0] == '=';
  }

  /** A message without the listed field comes back as it was. */
  lemma UnlistedFieldKept()
    ensures FilterDatum(["ssn"], "***", "name=Bob;", ";") == "name=Bob;"
  {
    AbsentHeadNoOccurrence("ssn=", "name=Bob;");
    UnchangedWithoutKey(["ssn"], "***", "name=Bob;", ";");
  }

  /** Listed fields are redacted and the others kept, in order. */
  lemma ListedFieldsRedactedOthersKept()
    ensures FilterDatum(["name", "email"], "***", "name=Bob;email=b@x.com;phone=555;", ";")
      == "name=***;email=***;phone=555;"
  {
    var alts := ["name", "email"];
    assert Alternatives(alts) == alts && NoEquals(alts);
    ListedFieldsParts();
    RedactsField(alts, "***", "name", "Bob", ';', "email=b@x.com;phone=555;");
    RedactsField(alts, "***", "email", "b@x.com", ';', "phone=555;");
    PhoneKept();
  }

  lemma PhoneKept()
    ensures Redact(["name", "email"], "***", "phone=555;", ";") == "phone=555;"
  {
    AbsentHeadNoOccurrence("name=", "555;");
    AbsentHeadNoOccurrence("email=", "555;");
    PhoneParts();
    KeyValueOccurrence("name", "phone", "555;");
    KeyValueOccurrence("email", "phone", "555;");
    UnchangedWithoutKey(["name", "email"], "***", "phone=555;", ";");
  }

  lemma PhoneParts()
    ensures "phone" + "=" + "555;" == "phone=555;"
    ensures '=' !in "phone" && '=' !in "name" && '=' !in "email"
    ensures !IsSuffix("name", "phone") && !IsSuffix("email", "phone")
  {
  }

  lemma ListedFieldsParts()
    ensures '\n' !in "Bob" && ';' !in "Bob"[1..] && '\n' !in "b@x.com" && ';' !in "b@x.com"[1..]
    ensures "name=Bob;email=b@x.com;phone=555;" == "name" + "=" + "Bob" + [';'] + "email=b@x.com;phone=555;"
    ensures "email=b@x.com;phone=555;" == "email" + "=" + "b@x.com" + [';'] + "phone=555;"
    ensures "name" + "=" + "***" + [';'] + ("email" + "=" + "***" + [';'] + "phone=555;")
      == "name=***;email=***;phone=555;"
  {
    ListedInputParts();
    ListedOutputParts();
  }

  lemma ListedInputParts()
    ensures "name=Bob;email=b@x.com;phone=555;" == "name" + "=" + "Bob" + [';'] + "email=b@x.com;phone=555;"
    ensures "email=b@x.com;phone=555;" == "email" + "=" + "b@x.com" + [';'] + "phone=555;"
  {
  }

  lemma ListedOutputParts()
    ensures "name" + "=" + "***" + [';'] + ("email" + "=" + "***" + [';'] + "phone=555;")
      == "name=***;email=***;phone=555;"
  {
  }
}
