/**
 * The Telegram Login Widget credential check: the data-check-string built from
 * the claimed fields, and the comparison of its HMAC-SHA-256 (keyed with the
 * SHA-256 of the bot token) against the hash the widget supplied.
 */
module TgVerifier {
  import opened Wrappers
  import opened GoTypes
  import opened Decimal
  import opened Hex
  import opened Text

  /** The fields the login widget hands over; `Hash` signs all the others. */
  datatype Credentials = Credentials(
    ID: int64,
    FirstName: string,
    LastName: string,
    Username: string,
    PhotoURL: string,
    AuthDate: int64,
    Hash: string)

  /** The one error `Verify` reports (`ErrInvalidCreds`); success is `None`, Go's `nil`. */
  datatype Error = ErrInvalidCreds

  // The data-check-string, specified as a table of signed fields.

  /** One `key=value` line of the data-check-string. */
  datatype Field = Field(key: string, value: string)

  /** Every signed field with its rendered value, in alphabetical order of key. */
  function FieldTable(c: Credentials): seq<Field>
  {
    [ Field("auth_date", FormatInt(c.AuthDate)),
      Field("first_name", c.FirstName),
      Field("id", FormatInt(c.ID)),
      Field("last_name", c.LastName),
      Field("photo_url", c.PhotoURL),
      Field("username", c.Username) ]
  }

  /** The entries with a non-empty value, in their original order. */
  function Present(fs: seq<Field>): (r: seq<Field>)
    ensures forall f :: f in r <==> f in fs && f.value != ""
  {
    if fs == [] then []
    else (if fs[0].value != "" then [fs[0]] else []) + Present(fs[1..])
  }

  function Render(f: Field): string
  {
    f.key + "=" + f.value
  }

  function RenderAll(fs: seq<Field>): (r: seq<string>)
    ensures |r| == |fs|
  {
    seq(|fs|, i requires 0 <= i < |fs| => Render(fs[i]))
  }

  /** The fields that end up in the data-check-string. */
  function SignedFields(c: Credentials): seq<Field>
  {
    Present(FieldTable(c))
  }

  /** The data-check-string: the signed fields as `key=value` lines joined by `\n`. */
  function CheckString(c: Credentials): string
  {
    Join(RenderAll(SignedFields(c)))
  }

  /** A `\n`-prefixed `key=value` line, or nothing for an empty value. */
  function OptionalLine(key: string, value: string): string
  {
    if value == "" then "" else "\n" + Render(Field(key, value))
  }

  /** `acc` followed by the optional lines of the entries, appended one at a time. */
  function AppendLines(acc: string, fs: seq<Field>): string
    decreases fs
  {
    if fs == [] then acc else AppendLines(acc + OptionalLine(fs[0].key, fs[0].value), fs[1..])
  }

  lemma JoinRenderedCons(f: Field, p: seq<Field>)
    ensures Join(RenderAll([f] + p))
         == if p == [] then Render(f) else Render(f) + "\n" + Join(RenderAll(p))
  {
    var r := RenderAll([f] + p);
    assert r == [Render(f)] + RenderAll(p);
    assert r[1..] == RenderAll(p);
  }

  /** Appending the optional lines one by one gives the `\n`-led join of the present entries. */
  lemma {:induction false} AppendLinesJoins(acc: string, fs: seq<Field>)
    ensures AppendLines(acc, fs)
         == acc + if Present(fs) == [] then "" else "\n" + Join(RenderAll(Present(fs)))
    decreases fs
  {
    if fs == [] {
      assert acc + "" == acc;
    } else {
      var f, p := fs[0], Present(fs[1..]);
      var line := OptionalLine(f.key, f.value);
      AppendLinesJoins(acc + line, fs[1..]);
      if f.value != "" {
        assert Present(fs) == [f] + p;
        JoinRenderedCons(f, p);
        assert line == "\n" + Render(f);
        if p != [] {
          ConcatLines(acc, Render(f), Join(RenderAll(p)));
        }
      } else {
        assert Present(fs) == p;
        assert acc + line == acc;
      }
    }
  }

  /** Regrouping for `AppendLinesJoins`, kept apart so its sequence reasoning stays small. */
  lemma ConcatLines(acc: string, line: string, rest: string)
    ensures acc + ("\n" + line) + ("\n" + rest) == acc + ("\n" + (line + "\n" + rest))
  {
  }

  lemma AppendLinesCons(acc: string, f: Field, rest: seq<Field>)
    ensures AppendLines(acc, [f] + rest) == AppendLines(acc + OptionalLine(f.key, f.value), rest)
  {
    assert ([f] + rest)[1..] == rest;
  }

  /**
   * The data-check-string is the `auth_date` line, then the `first_name`
   * line if any, the `id` line and the `last_name`, `photo_url` and
   * `username` lines if any, each line after the first led by one `\n`.
   */
  lemma CheckStringLayout(c: Credentials)
    ensures CheckString(c)
         == "auth_date=" + FormatInt(c.AuthDate)
          + OptionalLine("first_name", c.FirstName)
          + OptionalLine("id", FormatInt(c.ID))
          + OptionalLine("last_name", c.LastName)
          + OptionalLine("photo_url", c.PhotoURL)
          + OptionalLine("username", c.Username)
  {
    var t := FieldTable(c);
    CheckStringAppends(c);
    assert t[1..] == [t[1], t[2], t[3], t[4], t[5]];
    AppendFive(Render(t[0]), t[1], t[2], t[3], t[4], t[5]);
    RenderAuthDate(c);
  }

  lemma CheckStringAppends(c: Credentials)
    ensures CheckString(c) == AppendLines(Render(FieldTable(c)[0]), FieldTable(c)[1..])
  {
    var t := FieldTable(c);
    var p := Present(t[1..]);
    assert Present(t) == [t[0]] + p;
    JoinRenderedCons(t[0], p);
    AppendLinesJoins(Render(t[0]), t[1..]);
  }

  lemma AppendFive(acc: string, a: Field, b: Field, c: Field, d: Field, e: Field)
    ensures AppendLines(acc, [a, b, c, d, e])
         == acc + OptionalLine(a.key, a.value) + OptionalLine(b.key, b.value) + OptionalLine(c.key, c.value)
          + OptionalLine(d.key, d.value) + OptionalLine(e.key, e.value)
  {
    var acc1 := acc + OptionalLine(a.key, a.value);
    var acc2 := acc1 + OptionalLine(b.key, b.value);
    var acc3 := acc2 + OptionalLine(c.key, c.value);
    var acc4 := acc3 + OptionalLine(d.key, d.value);
    AppendLinesCons(acc, a, [b, c, d, e]);
    AppendLinesCons(acc1, b, [c, d, e]);
    AppendLinesCons(acc2, c, [d, e]);
    AppendLinesCons(acc3, d, [e]);
    AppendLinesCons(acc4, e, []);
  }

  lemma KeyPrefixes()
    ensures "\nfirst_name=" == "\n" + "first_name" + "="
    ensures "\nid=" == "\n" + "id" + "="
    ensures "\nlast_name=" == "\n" + "last_name" + "="
    ensures "\nphoto_url=" == "\n" + "photo_url" + "="
    ensures "\nusername=" == "\n" + "username" + "="
  {
  }

  /** One conditional append of `String`, in terms of `OptionalLine`. */
  lemma AppendOptional(s: string, key: string, prefix: string, value: string)
    requires prefix == "\n" + key + "="
    ensures (if value != "" then s + (prefix + value) else s) == s + OptionalLine(key, value)
  {
    if value == "" {
      assert s + "" == s;
    } else {
      assert prefix + value == "\n" + Render(Field(key, value));
    }
  }

  /** `Credentials.String`: the data-check-string, built by successive appends. */
  method String(c: Credentials) returns (s: string)
    ensures s == CheckString(c)
  {
    s := "auth_date=" + FormatInt(c.AuthDate);
    ghost var s0 := s;
    if c.FirstName != "" {
      s := s + ("\nfirst_name=" + c.FirstName);
    }
    ghost var s1 := s;
    s := s + ("\nid=" + FormatInt(c.ID));
    ghost var s2 := s;
    if c.LastName != "" {
      s := s + ("\nlast_name=" + c.LastName);
    }
    ghost var s3 := s;
    if c.PhotoURL != "" {
      s := s + ("\nphoto_url=" + c.PhotoURL);
    }
    ghost var s4 := s;
    if c.Username != "" {
      s := s + ("\nusername=" + c.Username);
    }
    AppendSteps(c, s0, s1, s2, s3, s4, s);
  }

  /** The appends `String` makes, one per field, yield the data-check-string. */
  lemma AppendSteps(c: Credentials, s0: string, s1: string, s2: string, s3: string, s4: string, s5: string)
    requires s0 == "auth_date=" + FormatInt(c.AuthDate)
    requires s1 == if c.FirstName != "" then s0 + ("\nfirst_name=" + c.FirstName) else s0
    requires s2 == s1 + ("\nid=" + FormatInt(c.ID))
    requires s3 == if c.LastName != "" then s2 + ("\nlast_name=" + c.LastName) else s2
    requires s4 == if c.PhotoURL != "" then s3 + ("\nphoto_url=" + c.PhotoURL) else s3
    requires s5 == if c.Username != "" then s4 + ("\nusername=" + c.Username) else s4
    ensures s5 == CheckString(c)
  {
    KeyPrefixes();
    AppendOptional(s0, "first_name", "\nfirst_name=", c.FirstName);
    AppendOptional(s1, "id", "\nid=", FormatInt(c.ID));
    AppendOptional(s2, "last_name", "\nlast_name=", c.LastName);
    AppendOptional(s3, "photo_url", "\nphoto_url=", c.PhotoURL);
    AppendOptional(s4, "username", "\nusername=", c.Username);
    CheckStringLayout(c);
  }

  // What the data-check-string holds, and in which order.

  /** Character-wise alphabetical order of keys, strict. */
  predicate LexLess(a: string, b: string)
  {
    |b| > 0 && (|a| == 0 || a[0] < b[0] || (a[0] == b[0] && LexLess(a[1..], b[1..])))
  }

  predicate KeysAscending(fs: seq<Field>)
  {
    forall i, j :: 0 <= i < j < |fs| ==> LexLess(fs[i].key, fs[j].key)
  }

  lemma {:induction false} LexLessIrreflexive(a: string)
    ensures !LexLess(a, a)
  {
    if |a| > 0 {
      LexLessIrreflexive(a[1..]);
    }
  }

  /** The table lists its keys in alphabetical order, and `hash` is not one of them. */
  lemma FieldTableAscending(c: Credentials)
    ensures KeysAscending(FieldTable(c))
    ensures forall f :: f in FieldTable(c) ==> f.key != "hash"
  {
    var t := FieldTable(c);
    forall i, j | 0 <= i < j < |t| ensures LexLess(t[i].key, t[j].key) {
      assert t[i].key[0] < t[j].key[0];
    }
  }

  lemma {:induction false} PresentAscending(fs: seq<Field>)
    requires KeysAscending(fs)
    ensures KeysAscending(Present(fs))
  {
    if fs != [] {
      PresentAscending(fs[1..]);
      var p := Present(fs[1..]);
      if fs[0].value != "" {
        assert Present(fs) == [fs[0]] + p;
        forall j | 0 <= j < |p| ensures LexLess(fs[0].key, p[j].key) {
          assert p[j] in fs[1..];
        }
      } else {
        assert Present(fs) == p;
      }
    }
  }

  /** The lines of the data-check-string come in strictly alphabetical order of key. */
  lemma SignedFieldsAscending(c: Credentials)
    ensures KeysAscending(SignedFields(c))
  {
    FieldTableAscending(c);
    PresentAscending(FieldTable(c));
  }

  /** The value of the first entry with the given key. */
  function Lookup(fs: seq<Field>, key: string): Option<string>
  {
    if fs == [] then None
    else if fs[0].key == key then Some(fs[0].value)
    else Lookup(fs[1..], key)
  }

  lemma {:induction false} LookupFinds(fs: seq<Field>, f: Field)
    requires KeysAscending(fs) && f in fs
    ensures Lookup(fs, f.key) == Some(f.value)
  {
    if fs[0] != f {
      if fs[0].key == f.key {
        var j :| 0 <= j < |fs| && fs[j] == f;
        assert LexLess(fs[0].key, fs[j].key);
        LexLessIrreflexive(f.key);
      }
      assert f in fs[1..];
      LookupFinds(fs[1..], f);
    }
  }

  lemma {:induction false} LookupMisses(fs: seq<Field>, key: string)
    requires forall f :: f in fs ==> f.key != key
    ensures Lookup(fs, key) == None
  {
    if fs != [] {
      LookupMisses(fs[1..], key);
    }
  }

  /**
   * `auth_date` and `id` are always signed; each optional field is signed,
   * with its value verbatim, exactly when it is non-empty; `hash` never is.
   */
  lemma SignedFieldsContents(c: Credentials)
    ensures Lookup(SignedFields(c), "auth_date") == Some(FormatInt(c.AuthDate))
    ensures Lookup(SignedFields(c), "id") == Some(FormatInt(c.ID))
    ensures Lookup(SignedFields(c), "first_name") == if c.FirstName == "" then None else Some(c.FirstName)
    ensures Lookup(SignedFields(c), "last_name") == if c.LastName == "" then None else Some(c.LastName)
    ensures Lookup(SignedFields(c), "photo_url") == if c.PhotoURL == "" then None else Some(c.PhotoURL)
    ensures Lookup(SignedFields(c), "username") == if c.Username == "" then None else Some(c.Username)
    ensures Lookup(SignedFields(c), "hash") == None
  {
    var t, p := FieldTable(c), SignedFields(c);
    SignedFieldsAscending(c);
    FieldTableAscending(c);
    SignedFieldPresence(p, t, "auth_date", FormatInt(c.AuthDate));
    SignedFieldPresence(p, t, "id", FormatInt(c.ID));
    SignedFieldPresence(p, t, "first_name", c.FirstName);
    SignedFieldPresence(p, t, "last_name", c.LastName);
    SignedFieldPresence(p, t, "photo_url", c.PhotoURL);
    SignedFieldPresence(p, t, "username", c.Username);
    LookupMisses(p, "hash");
  }

  lemma SignedFieldPresence(p: seq<Field>, t: seq<Field>, key: string, value: string)
    requires p == Present(t) && KeysAscending(p) && KeysAscending(t)
    requires Field(key, value) in t
    ensures Lookup(p, key) == if value == "" then None else Some(value)
  {
    if value == "" {
      forall f | f in p ensures f.key != key {
        if f.key == key {
          LookupFinds(t, f);
          LookupFinds(t, Field(key, value));
        }
      }
      LookupMisses(p, key);
    } else {
      LookupFinds(p, Field(key, value));
    }
  }

  /** The string opens with the `auth_date` line, and a `\n` always follows it (the `id` line comes later). */
  lemma CheckStringStartsWithAuthDate(c: Credentials)
    ensures var head := "auth_date=" + FormatInt(c.AuthDate);
      head <= CheckString(c) && |CheckString(c)| > |head| && CheckString(c)[|head|] == '\n'
  {
    var t := FieldTable(c);
    var p := Present(t[1..]);
    assert Present(t) == [t[0]] + p;
    assert t[2] in p;
    JoinRenderedCons(t[0], p);
    var line := Render(t[0]);
    assert (line + "\n" + Join(RenderAll(p)))[|line|] == '\n';
    RenderAuthDate(c);
  }

  lemma RenderAuthDate(c: Credentials)
    ensures Render(FieldTable(c)[0]) == "auth_date=" + FormatInt(c.AuthDate)
  {
    assert "auth_date" + "=" == "auth_date=";
  }

  /** The hash takes no part in the data-check-string. */
  lemma CheckStringIgnoresHash(c: Credentials, hash: string)
    ensures CheckString(c.(Hash := hash)) == CheckString(c)
  {
    assert FieldTable(c.(Hash := hash)) == FieldTable(c);
  }

  /** A sample login: first name set, last name, photo and username empty. */
  lemma CheckStringExample(hash: string)
    ensures CheckString(Credentials(12345, "Ann", "", "", "", 1700000000, hash))
         == "auth_date=1700000000\nfirst_name=Ann\nid=12345"
  {
    var c := Credentials(12345, "Ann", "", "", "", 1700000000, hash);
    CheckStringLayout(c);
    ExampleNumbers();
    ExampleLines();
  }

  lemma ExampleLines()
    ensures OptionalLine("first_name", "Ann") == "\nfirst_name=Ann"
    ensures OptionalLine("id", "12345") == "\nid=12345"
    ensures "auth_date=" + "1700000000" + "\nfirst_name=Ann" + "\nid=12345"
          + OptionalLine("last_name", "") + OptionalLine("photo_url", "") + OptionalLine("username", "")
         == "auth_date=1700000000\nfirst_name=Ann\nid=12345"
  {
    OptionalLineText("first_name", "Ann");
    OptionalLineText("id", "12345");
    KeyPrefixes();
    assert "\nfirst_name=" + "Ann" == "\nfirst_name=Ann";
    assert "\nid=" + "12345" == "\nid=12345";
    assert "auth_date=" + "1700000000" == "auth_date=1700000000";
    assert "auth_date=1700000000" + "\nfirst_name=Ann" == "auth_date=1700000000\nfirst_name=Ann";
    assert "auth_date=1700000000\nfirst_name=Ann" + "\nid=12345" + "" + "" + ""
        == "auth_date=1700000000\nfirst_name=Ann\nid=12345";
  }

  lemma ExampleNumbers()
    ensures FormatInt(12345) == "12345"
    ensures FormatInt(1700000000) == "1700000000"
  {
    assert NatDigits(1) == "1";
    assert NatDigits(12) == "12";
    assert NatDigits(123) == "123";
    assert NatDigits(1234) == "1234";
    assert NatDigits(17) == "17";
    assert NatDigits(170) == "170";
    assert NatDigits(1700) == "1700";
    assert NatDigits(17000) == "17000";
    assert NatDigits(170000) == "170000";
    assert NatDigits(1700000) == "1700000";
    assert NatDigits(17000000) == "17000000";
    assert NatDigits(170000000) == "170000000";
  }

  /**
   * Values are copied without escaping, so a value holding `\n` can carry a
   * whole line of another field: moving `photo_url` into the tail of
   * `last_name` leaves the data-check-string unchanged.
   */
  lemma CheckStringAmbiguous(c: Credentials)
    requires c.LastName != "" && c.PhotoURL != ""
    ensures var spliced := c.(LastName := c.LastName + "\nphoto_url=" + c.PhotoURL, PhotoURL := "");
      spliced != c && CheckString(spliced) == CheckString(c)
  {
    var spliced := c.(LastName := c.LastName + "\nphoto_url=" + c.PhotoURL, PhotoURL := "");
    CheckStringLayout(c);
    CheckStringLayout(spliced);
    KeyPrefixes();
    SpliceLines("last_name", c.LastName, "photo_url", "\nphoto_url=", c.PhotoURL);
    var head := "auth_date=" + FormatInt(c.AuthDate) + OptionalLine("first_name", c.FirstName)
              + OptionalLine("id", FormatInt(c.ID));
    SpliceLayout(head, OptionalLine("last_name", c.LastName), OptionalLine("photo_url", c.PhotoURL),
                 OptionalLine("last_name", spliced.LastName), OptionalLine("username", c.Username));
    assert |spliced.LastName| > |c.LastName|;
  }

  lemma OptionalLineText(key: string, value: string)
    requires value != ""
    ensures OptionalLine(key, value) == "\n" + key + "=" + value
  {
    assert "\n" + (key + "=" + value) == "\n" + key + "=" + value;
  }

  lemma SpliceLines(key1: string, value1: string, key2: string, prefix2: string, value2: string)
    requires value1 != "" && value2 != "" && prefix2 == "\n" + key2 + "="
    ensures OptionalLine(key1, value1 + prefix2 + value2) + OptionalLine(key2, "")
         == OptionalLine(key1, value1) + OptionalLine(key2, value2)
  {
    OptionalLineText(key1, value1 + prefix2 + value2);
    OptionalLineText(key1, value1);
    OptionalLineText(key2, value2);
    var lead := "\n" + key1 + "=";
    assert lead + (value1 + prefix2 + value2) + "" == lead + value1 + prefix2 + value2;
    assert prefix2 + value2 == "\n" + key2 + "=" + value2;
    assert lead + value1 + (prefix2 + value2) == lead + value1 + prefix2 + value2;
  }

  /** Regrouping for `CheckStringAmbiguous`, kept apart so its sequence reasoning stays small. */
  lemma SpliceLayout(head: string, line1: string, line2: string, spliced: string, tail: string)
    requires spliced + "" == line1 + line2
    ensures head + spliced + "" + tail == head + line1 + line2 + tail
  {
    assert head + spliced + "" == head + (spliced + "");
    assert head + (line1 + line2) == head + line1 + line2;
  }

  // Reading the data-check-string back.

  function ParseField(line: string): Option<Field>
  {
    match Cut(line, '=')
    case None => None
    case Some((key, value)) => Some(Field(key, value))
  }

  function ParseFields(lines: seq<string>): Option<seq<Field>>
  {
    if lines == [] then Some([])
    else
      match (ParseField(lines[0]), ParseFields(lines[1..]))
      case (Some(f), Some(fs)) => Some([f] + fs)
      case _ => None
  }

  function ParseInt64(s: string): Option<int64>
  {
    match ParseInt(s)
    case Some(n) => if InInt64Range(n) then Some(n) else None
    case None => None
  }

  /** The value under `key`, or the empty string Go's zero value stands for. */
  function ValueOr(fs: seq<Field>, key: string): string
  {
    match Lookup(fs, key)
    case Some(v) => v
    case None => ""
  }

  /** The credentials a data-check-string describes, with an empty hash. */
  function ParseCheckString(s: string): Option<Credentials>
  {
    match ParseFields(Split(s))
    case None => None
    case Some(fs) =>
      match (Lookup(fs, "auth_date"), Lookup(fs, "id"))
      case (Some(a), Some(i)) =>
        (match (ParseInt64(a), ParseInt64(i))
         case (Some(authDate), Some(id)) =>
           Some(Credentials(id, ValueOr(fs, "first_name"), ValueOr(fs, "last_name"),
                            ValueOr(fs, "username"), ValueOr(fs, "photo_url"), authDate, ""))
         case _ => None)
      case _ => None
  }

  lemma {:induction false} ParseRendered(fs: seq<Field>)
    requires forall f :: f in fs ==> '=' !in f.key
    ensures ParseFields(RenderAll(fs)) == Some(fs)
  {
    if fs != [] {
      var lines := RenderAll(fs);
      assert lines[1..] == RenderAll(fs[1..]);
      ParseRendered(fs[1..]);
      CutAtFirst(fs[0].key, '=', fs[0].value);
      assert [fs[0]] + fs[1..] == fs;
    }
  }

  /**
   * When no optional value holds a `\n`, the data-check-string determines
   * every signed field: reading it back gives the credentials without hash.
   */
  lemma CheckStringRoundTrip(c: Credentials)
    requires '\n' !in c.FirstName && '\n' !in c.LastName
    requires '\n' !in c.PhotoURL && '\n' !in c.Username
    ensures ParseCheckString(CheckString(c)) == Some(c.(Hash := ""))
  {
    SignedLinesParse(c);
    SignedFieldsContents(c);
    FormatIntRoundTrip(c.AuthDate);
    FormatIntRoundTrip(c.ID);
  }

  /**
   * The value of the last line when that line is an optional one: `username`,
   * else `photo_url`, else `last_name`; empty when the `id` line comes last.
   */
  function LastOptional(c: Credentials): string
  {
    if c.Username != "" then c.Username
    else if c.PhotoURL != "" then c.PhotoURL
    else c.LastName
  }

  /**
   * Values are copied verbatim, so the data-check-string ends with a newline
   * exactly when the value on its last line does; the `id` line never does.
   */
  lemma CheckStringEndsWithNewline(c: Credentials)
    ensures |CheckString(c)| >= 1
    ensures var s, v := CheckString(c), LastOptional(c);
      s[|s| - 1] == '\n' <==> v != "" && v[|v| - 1] == '\n'
  {
    var head := "auth_date=" + FormatInt(c.AuthDate) + OptionalLine("first_name", c.FirstName);
    var id := FormatInt(c.ID);
    assert |head| >= 1 && |id| >= 1;
    FormatIntHasNoNewline(c.ID);
    assert id[|id| - 1] in id;
    CheckStringLayout(c);
    LastOfLayout(head, id, c.LastName, c.PhotoURL, c.Username, CheckString(c), LastOptional(c));
  }

  /** `CheckStringEndsWithNewline` for any head and `id` value, so that its reasoning stays small. */
  lemma LastOfLayout(head: string, id: string, last: string, photo: string, user: string, s: string, v: string)
    requires |head| >= 1 && |id| >= 1 && id[|id| - 1] != '\n'
    requires s == head + OptionalLine("id", id) + OptionalLine("last_name", last)
                 + OptionalLine("photo_url", photo) + OptionalLine("username", user)
    requires v == if user != "" then user else if photo != "" then photo else last
    ensures |s| >= 1 && (s[|s| - 1] == '\n' <==> v != "" && v[|v| - 1] == '\n')
  {
    var s2 := head + OptionalLine("id", id);
    LastCharAppend(head, "id", id);
    var s3 := s2 + OptionalLine("last_name", last);
    LastCharAppend(s2, "last_name", last);
    var s4 := s3 + OptionalLine("photo_url", photo);
    LastCharAppend(s3, "photo_url", photo);
    LastCharAppend(s4, "username", user);
  }

  /** The last character after appending an optional line: the value's last, or the old last when the line is left out. */
  lemma LastCharAppend(a: string, key: string, v: string)
    requires |a| >= 1
    ensures var s := a + OptionalLine(key, v);
      |s| >= 1 && s[|s| - 1] == (if v != "" then v[|v| - 1] else a[|a| - 1])
  {
    if v != "" {
      OptionalLineText(key, v);
    } else {
      assert a + "" == a;
    }
  }

  /** When no value on a line after `id` holds a `\n`, no newline follows the last line. */
  lemma CheckStringNoTrailingNewline(c: Credentials)
    requires '\n' !in c.LastName && '\n' !in c.PhotoURL && '\n' !in c.Username
    ensures |CheckString(c)| >= 1 && CheckString(c)[|CheckString(c)| - 1] != '\n'
  {
    CheckStringEndsWithNewline(c);
    var v := LastOptional(c);
    if v != "" {
      assert v[|v| - 1] in v;
    }
  }

  /** One case of the exception: a `username` ending in `\n` leaves a newline after the last line. */
  lemma CheckStringTrailingNewline(c: Credentials)
    requires c.Username != "" && c.Username[|c.Username| - 1] == '\n'
    ensures |CheckString(c)| >= 1 && CheckString(c)[|CheckString(c)| - 1] == '\n'
  {
    CheckStringEndsWithNewline(c);
  }

  /** Splitting the data-check-string into lines and cutting each at its first `=` gives back the signed fields. */
  lemma SignedLinesParse(c: Credentials)
    requires '\n' !in c.FirstName && '\n' !in c.LastName
    requires '\n' !in c.PhotoURL && '\n' !in c.Username
    ensures ParseFields(Split(CheckString(c))) == Some(SignedFields(c))
  {
    var p := SignedFields(c);
    SignedLinesPlain(c);
    SplitJoin(RenderAll(p));
    ParseRendered(p);
  }

  lemma SignedLinesPlain(c: Credentials)
    requires '\n' !in c.FirstName && '\n' !in c.LastName
    requires '\n' !in c.PhotoURL && '\n' !in c.Username
    ensures |SignedFields(c)| >= 1
    ensures forall f :: f in SignedFields(c) ==> '=' !in f.key
    ensures forall i :: 0 <= i < |SignedFields(c)| ==> '\n' !in RenderAll(SignedFields(c))[i]
  {
    var t, p := FieldTable(c), SignedFields(c);
    assert t[0] in p;
    FieldTablePlain(c);
    forall i | 0 <= i < |p| ensures '\n' !in RenderAll(p)[i] {
      assert p[i] in t;
      assert RenderAll(p)[i] == p[i].key + "=" + p[i].value;
    }
  }

  lemma FieldTablePlain(c: Credentials)
    requires '\n' !in c.FirstName && '\n' !in c.LastName
    requires '\n' !in c.PhotoURL && '\n' !in c.Username
    ensures forall f :: f in FieldTable(c) ==> '=' !in f.key && '\n' !in f.key && '\n' !in f.value
  {
    var t := FieldTable(c);
    FormatIntHasNoNewline(c.AuthDate);
    FormatIntHasNoNewline(c.ID);
    assert '=' !in "auth_date" && '\n' !in "auth_date";
    assert '=' !in "first_name" && '\n' !in "first_name";
    assert '=' !in "id" && '\n' !in "id";
    assert '=' !in "last_name" && '\n' !in "last_name";
    assert '=' !in "photo_url" && '\n' !in "photo_url";
    assert '=' !in "username" && '\n' !in "username";
    forall f | f in t ensures '=' !in f.key && '\n' !in f.key && '\n' !in f.value {
      assert f == t[0] || f == t[1] || f == t[2] || f == t[3] || f == t[4] || f == t[5];
    }
  }

  // The verifier.

  /** A SHA-256 digest: 32 bytes. */
  type Digest = s: seq<byte> | |s| == 32 witness seq(32, _ => 0)

  /**
   * The hash primitives the check relies on, taken as given: `Sum256` is
   * `sha256.Sum256`, and `ComputeHmac256(msg, key)` is `computeHmac256`, an
   * HMAC-SHA-256 of the bytes of `msg` under `key`. Nothing is known of them
   * except that each yields 32 bytes, so every property below holds whatever
   * they compute.
   */
  datatype Hashes = Hashes(Sum256: seq<byte> -> Digest, ComputeHmac256: (string, seq<byte>) -> Digest)

  /**
   * The hash genuine credentials carry: the HMAC of the data-check-string
   * under the SHA-256 of the bot token, as 64 lowercase hex characters that
   * decode back to that MAC.
   */
  function ExpectedHash(c: Credentials, token: seq<byte>, h: Hashes): (r: string)
    ensures |r| == 64 && IsLowerHex(r)
    ensures HexDecode(r) == Some(h.ComputeHmac256(CheckString(c), h.Sum256(token)))
  {
    var mac := h.ComputeHmac256(CheckString(c), h.Sum256(token));
    HexRoundTrip(mac);
    HexEncode(mac)
  }

  /**
   * `Credentials.Verify`: `None` (Go's `nil`) exactly when `Hash` is the
   * expected hash, otherwise `ErrInvalidCreds`; in particular every hash that
   * is not 64 lowercase hex characters is refused.
   */
  method Verify(c: Credentials, token: seq<byte>, h: Hashes) returns (err: Option<Error>)
    ensures err == None <==> c.Hash == ExpectedHash(c, token, h)
    ensures !(|c.Hash| == 64 && IsLowerHex(c.Hash)) ==> err == Some(ErrInvalidCreds)
  {
    var secret := h.Sum256(token);
    var checkString := String(c);
    var authCode := h.ComputeHmac256(checkString, secret);
    var hexAuthCode := HexEncode(authCode);
    if hexAuthCode != c.Hash {
      return Some(ErrInvalidCreds);
    }
    return None;
  }

  /** The expected hash does not depend on the hash supplied. */
  lemma ExpectedHashIgnoresHash(c: Credentials, token: seq<byte>, h: Hashes, hash: string)
    ensures ExpectedHash(c.(Hash := hash), token, h) == ExpectedHash(c, token, h)
  {
    CheckStringIgnoresHash(c, hash);
  }

  /**
   * Once credentials verify, any other hash on the same fields (one character
   * changed, truncated, upper-cased) makes them fail.
   */
  lemma OtherHashRejected(c: Credentials, token: seq<byte>, h: Hashes, forged: string)
    requires c.Hash == ExpectedHash(c, token, h) && forged != c.Hash
    ensures forged != ExpectedHash(c.(Hash := forged), token, h)
  {
    ExpectedHashIgnoresHash(c, token, h, forged);
  }

  /**
   * The verdict depends on the fields only through the data-check-string, so
   * credentials whose `last_name` carries the `photo_url` line verify with the
   * hash of the original credentials.
   */
  lemma SplicedCredentialsAccepted(c: Credentials, token: seq<byte>, h: Hashes)
    requires c.LastName != "" && c.PhotoURL != ""
    ensures var spliced := c.(LastName := c.LastName + "\nphoto_url=" + c.PhotoURL, PhotoURL := "");
      spliced != c && ExpectedHash(spliced, token, h) == ExpectedHash(c, token, h) &&
      (c.Hash == ExpectedHash(c, token, h) ==> spliced.Hash == ExpectedHash(spliced, token, h))
  {
    CheckStringAmbiguous(c);
  }

  /**
   * A tampered credential can pass only through a MAC collision or a `\n`
   * splice: if `d` differs from genuine credentials `c` in a signed field,
   * neither holds a `\n` in an optional value, and `d` verifies with the hash
   * of `c`, then their data-check-strings differ and the HMAC maps both to the
   * same MAC.
   */
  lemma TamperedCredentialsNeedCollision(c: Credentials, d: Credentials, token: seq<byte>, h: Hashes)
    requires '\n' !in c.FirstName && '\n' !in c.LastName && '\n' !in c.PhotoURL && '\n' !in c.Username
    requires '\n' !in d.FirstName && '\n' !in d.LastName && '\n' !in d.PhotoURL && '\n' !in d.Username
    requires d.(Hash := "") != c.(Hash := "")
    ensures CheckString(d) != CheckString(c)
    ensures c.Hash == ExpectedHash(c, token, h) && d.Hash == c.Hash && d.Hash == ExpectedHash(d, token, h)
        ==> h.ComputeHmac256(CheckString(d), h.Sum256(token)) == h.ComputeHmac256(CheckString(c), h.Sum256(token))
  {
    CheckStringRoundTrip(c);
    CheckStringRoundTrip(d);
  }
}
