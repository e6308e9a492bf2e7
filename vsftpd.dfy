/** The rewrite of the FTP server's configuration file done when the server is reinstalled:
    every line whose stripped text starts with one of the option keys becomes exactly
    `key=value`, and every key no line starts with is appended at the end. */
module Vsftpd {
  import opened Common
  import opened Text

  /** Option keys and values, in the order the rewrite tries them. */
  type OptionList = seq<(string, string)>

  /** The options the reinstall enforces. */
  const VsftpdOptions: OptionList :=
    [("write_enable", "YES"), ("local_umask", "022"), ("local_enable", "YES"),
     ("chroot_local_user", "YES"), ("allow_writeable_chroot", "YES")]

  // ---------------------------------------------------------------- keys and settings

  predicate KeyChar(c: char) {
    'a' <= c <= 'z' || 'A' <= c <= 'Z' || '0' <= c <= '9' || c == '_'
  }

  /** A configuration key: a non-empty word of letters, digits and underscores. */
  predicate KeyOk(k: string) {
    k != [] && forall i :: 0 <= i < |k| ==> KeyChar(k[i])
  }

  /** A value written on one line. */
  predicate ValueOk(v: string) {
    forall i :: 0 <= i < |v| ==> v[i] != '\n'
  }

  /** Options the rewrite handles as intended: proper keys and one-line values, and no key
      is the start of another (so one line cannot start with two keys). */
  predicate WellFormed(opts: OptionList) {
    (forall j :: 0 <= j < |opts| ==> KeyOk(opts[j].0) && ValueOk(opts[j].1)) &&
    (forall i, j :: 0 <= i < |opts| && 0 <= j < |opts| && i != j ==> !StartsWith(opts[i].0, opts[j].0))
  }

  /** Two keys that differ at a position both have: neither starts the other. */
  lemma DifferAt(a: string, b: string, p: nat)
    requires p < |a| && p < |b| && a[p] != b[p]
    ensures !StartsWith(a, b) && !StartsWith(b, a)
  {
    if |b| <= |a| {
      assert a[..|b|][p] == a[p];
    }
    if |a| <= |b| {
      assert b[..|a|][p] == b[p];
    }
  }

  /** The keys of the enforced options are words. */
  lemma OptionKeysOk()
    ensures forall j :: 0 <= j < |VsftpdOptions| ==> KeyOk(VsftpdOptions[j].0) && ValueOk(VsftpdOptions[j].1)
  {
    var o := VsftpdOptions;
    assert KeyOk(o[0].0);
    assert KeyOk(o[1].0);
    assert KeyOk(o[2].0);
    assert KeyOk(o[3].0);
    assert KeyOk(o[4].0);
  }

  /** No key of the enforced options starts another. */
  lemma OptionKeysApart()
    ensures forall i, j :: 0 <= i < |VsftpdOptions| && 0 <= j < |VsftpdOptions| && i != j ==>
              !StartsWith(VsftpdOptions[i].0, VsftpdOptions[j].0)
  {
    var o := VsftpdOptions;
    DifferAt(o[0].0, o[1].0, 0);
    DifferAt(o[0].0, o[2].0, 0);
    DifferAt(o[0].0, o[3].0, 0);
    DifferAt(o[0].0, o[4].0, 0);
    DifferAt(o[1].0, o[2].0, 6);
    DifferAt(o[1].0, o[3].0, 0);
    DifferAt(o[1].0, o[4].0, 0);
    DifferAt(o[2].0, o[3].0, 0);
    DifferAt(o[2].0, o[4].0, 0);
    DifferAt(o[3].0, o[4].0, 0);
  }

  /** The enforced options are well formed. */
  lemma OptionsWellFormed()
    ensures WellFormed(VsftpdOptions)
  {
    OptionKeysOk();
    OptionKeysApart();
  }

  /** The line written for an option. */
  function Setting(k: string, v: string): string {
    k + "=" + v + "\n"
  }

  /** `line.strip().startswith(key)`. */
  predicate Begins(l: string, k: string) {
    StartsWith(Strip(l), k)
  }

  /** The line written for an option starts with its key. */
  lemma SettingBegins(k: string, v: string)
    requires KeyOk(k)
    ensures Begins(Setting(k, v), k)
  {
    var s := Setting(k, v);
    assert s[0] == k[0] && KeyChar(k[0]);
    assert LStrip(s) == s;
    assert s[|k|] == '=';
    RStripKeeps(s, |k|);
    assert Strip(s)[..|k|] == s[..|k|];
  }

  /** Stripping the line of an option only cuts its end. */
  lemma SettingStrip(k: string, v: string)
    requires KeyOk(k)
    ensures StartsWith(Setting(k, v), Strip(Setting(k, v)))
  {
    var s := Setting(k, v);
    assert s[0] == k[0] && KeyChar(k[0]);
    assert LStrip(s) == s;
  }

  /** A key that begins the line of another option is the start of that option's key. */
  lemma SettingBeginsOnlyPrefixes(k: string, v: string, m: string)
    ensures KeyOk(k) && KeyOk(m) && Begins(Setting(k, v), m) ==> StartsWith(k, m)
  {
    var s := Setting(k, v);
    if KeyOk(k) && KeyOk(m) && Begins(s, m) {
      SettingStrip(k, v);
      WordPrefix(s, k, m);
    }
  }

  /** A word the text starts with, in a text whose key ends at `=`, lies within the key. */
  lemma WordPrefix(s: string, k: string, m: string)
    requires KeyOk(m) && |k| < |s| && s[..|k|] == k && s[|k|] == '='
    requires StartsWith(s, m)
    ensures StartsWith(k, m)
  {
    assert !KeyChar(s[|k|]);
    assert forall i :: 0 <= i < |m| ==> KeyChar(s[i]);
    assert |m| <= |k|;
    assert m == k[..|m|];
  }

  /** Two texts a line starts with: one starts the other. */
  lemma PrefixOfBoth(s: string, a: string, b: string)
    ensures StartsWith(s, a) && StartsWith(s, b) ==> StartsWith(a, b) || StartsWith(b, a)
  {
    if StartsWith(s, a) && StartsWith(s, b) {
      if |a| <= |b| {
        assert b[..|a|] == s[..|a|];
      } else {
        assert a[..|b|] == s[..|b|];
      }
    }
  }

  // ---------------------------------------------------------------- the pass over the lines

  /** The first option whose key the line starts with: where the inner loop breaks. */
  function KeyIndex(l: string, opts: OptionList): (r: Option<nat>)
    ensures r.Some? ==> r.value < |opts| && Begins(l, opts[r.value].0)
    ensures r.Some? ==> forall j :: 0 <= j < r.value ==> !Begins(l, opts[j].0)
    ensures r.None? ==> forall j :: 0 <= j < |opts| ==> !Begins(l, opts[j].0)
  {
    if opts == [] then None
    else if Begins(l, opts[0].0) then Some(0)
    else match KeyIndex(l, opts[1..])
         case Some(j) => Some(j + 1)
         case None => None
  }

  /** The first key the line starts with is the only one with none before it. */
  lemma KeyIndexIs(l: string, opts: OptionList, found: Option<nat>)
    requires found.Some? ==> found.value < |opts| && Begins(l, opts[found.value].0)
    requires found.Some? ==> forall j :: 0 <= j < found.value ==> !Begins(l, opts[j].0)
    requires found.None? ==> forall j :: 0 <= j < |opts| ==> !Begins(l, opts[j].0)
    ensures KeyIndex(l, opts) == found
  {
  }

  /** What the first loop makes of one line: the setting of the first key it starts with,
      or the line itself. */
  function Rewritten(l: string, opts: OptionList): string {
    match KeyIndex(l, opts)
    case Some(j) => Setting(opts[j].0, opts[j].1)
    case None => l
  }

  /** The first loop: one output line per input line. */
  function Pass(lines: seq<string>, opts: OptionList): (r: seq<string>)
    ensures |r| == |lines| && forall i :: 0 <= i < |lines| ==> r[i] == Rewritten(lines[i], opts)
  {
    seq(|lines|, i requires 0 <= i < |lines| => Rewritten(lines[i], opts))
  }

  /** `any(l.strip().startswith(key) for l in lines)`. */
  predicate AnyBegins(lines: seq<string>, k: string) {
    exists i :: 0 <= i < |lines| && Begins(lines[i], k)
  }

  /** One turn of the second loop: the option's line is added when no line starts with its
      key yet. */
  function Step(acc: seq<string>, kv: (string, string)): seq<string> {
    if AnyBegins(acc, kv.0) then acc else acc + [Setting(kv.0, kv.1)]
  }

  /** The second loop over the options, from the lines of the first. */
  function Appended(base: seq<string>, opts: OptionList): (r: seq<string>)
    ensures |r| >= |base| && r[..|base|] == base
  {
    if opts == [] then base else Step(Appended(base, opts[..|opts| - 1]), opts[|opts| - 1])
  }

  /** The lines `update_vsftpd_conf` writes for the lines it read. */
  function Rewrite(lines: seq<string>, opts: OptionList): seq<string> {
    Appended(Pass(lines, opts), opts)
  }

  /** Rewriting one more line. */
  lemma PassSnoc(lines: seq<string>, i: nat, opts: OptionList)
    requires i < |lines|
    ensures Pass(lines[..i + 1], opts) == Pass(lines[..i], opts) + [Rewritten(lines[i], opts)]
  {
  }

  /** `update_vsftpd_conf`'s two loops over the lines read from the file. */
  method UpdateLines(lines: seq<string>, opts: OptionList) returns (updated: seq<string>)
    ensures updated == Rewrite(lines, opts)
  {
    updated := [];
    for i := 0 to |lines|
      invariant updated == Pass(lines[..i], opts)
    {
      var found := FirstKey(lines[i], opts);
      if found.Some? {
        updated := updated + [Setting(opts[found.value].0, opts[found.value].1)];
      } else {
        updated := updated + [lines[i]];
      }
      PassSnoc(lines, i, opts);
    }
    assert lines[..|lines|] == lines;
    ghost var base := updated;
    for m := 0 to |opts|
      invariant updated == Appended(base, opts[..m])
    {
      assert opts[..m + 1][..m] == opts[..m];
      var present := AnyLineBegins(updated, opts[m].0);
      if !present {
        updated := updated + [Setting(opts[m].0, opts[m].1)];
      }
    }
    assert opts[..|opts|] == opts;
  }

  /** The inner loop of the first pass: the `key_found` flag and the `break` at the first
      key the stripped line starts with. */
  method FirstKey(line: string, opts: OptionList) returns (found: Option<nat>)
    ensures found == KeyIndex(line, opts)
  {
    var keyFound := false;
    var j := 0;
    while j < |opts|
      invariant j <= |opts|
      invariant forall t :: 0 <= t < j ==> !Begins(line, opts[t].0)
    {
      if Begins(line, opts[j].0) {
        keyFound := true;
        break;
      }
      j := j + 1;
    }
    found := if keyFound then Some(j) else None;
    KeyIndexIs(line, opts, found);
  }

  /** The `any(...)` scan of the second loop. */
  method AnyLineBegins(lines: seq<string>, k: string) returns (present: bool)
    ensures present == AnyBegins(lines, k)
  {
    present := false;
    for i := 0 to |lines|
      invariant present <==> exists t :: 0 <= t < i && Begins(lines[t], k)
    {
      if Begins(lines[i], k) {
        present := true;
      }
    }
  }

  // ---------------------------------------------------------------- what the rewrite does

  /** The options no input line starts with, in option order. */
  function Absent(lines: seq<string>, opts: OptionList): (r: OptionList)
    ensures |r| <= |opts|
    ensures forall e :: e in r ==> e in opts
  {
    if opts == [] then []
    else
      var last := opts[|opts| - 1];
      var before := Absent(lines, opts[..|opts| - 1]);
      assert forall e :: e in before ==> e in opts;
      before + (if AnyBegins(lines, last.0) then [] else [last])
  }

  /** The lines of some options. */
  function Settings(kvs: OptionList): (r: seq<string>)
    ensures |r| == |kvs| && forall i :: 0 <= i < |kvs| ==> r[i] == Setting(kvs[i].0, kvs[i].1)
  {
    seq(|kvs|, i requires 0 <= i < |kvs| => Setting(kvs[i].0, kvs[i].1))
  }

  /** Every option no input line starts with is among the absent ones. */
  lemma {:induction false} AbsentMember(lines: seq<string>, opts: OptionList, j: nat)
    requires j < |opts| && !AnyBegins(lines, opts[j].0)
    ensures opts[j] in Absent(lines, opts)
  {
    if j < |opts| - 1 {
      assert opts[..|opts| - 1][j] == opts[j];
      AbsentMember(lines, opts[..|opts| - 1], j);
    }
  }

  /** An absent option is one no input line starts with. */
  lemma {:induction false} AbsentNotBegun(lines: seq<string>, opts: OptionList, e: (string, string))
    ensures e in Absent(lines, opts) ==> !AnyBegins(lines, e.0)
  {
    if opts != [] {
      var last := opts[|opts| - 1];
      AbsentNotBegun(lines, opts[..|opts| - 1], e);
      if e in Absent(lines, opts) && e !in Absent(lines, opts[..|opts| - 1]) {
        assert e == last;
      }
    }
  }

  /** Lines for one more option. */
  lemma SettingsSnoc(kvs: OptionList, e: (string, string))
    ensures Settings(kvs + [e]) == Settings(kvs) + [Setting(e.0, e.1)]
  {
  }

  /** When every key starts some line, no option is absent. */
  lemma {:induction false} AbsentEmpty(lines: seq<string>, opts: OptionList)
    requires forall j :: 0 <= j < |opts| ==> AnyBegins(lines, opts[j].0)
    ensures Absent(lines, opts) == []
  {
    if opts != [] {
      var pre := opts[..|opts| - 1];
      assert forall j :: 0 <= j < |pre| ==> pre[j] == opts[j];
      AbsentEmpty(lines, pre);
    }
  }

  /** When no key starts any line, every option is absent. */
  lemma {:induction false} AbsentAll(lines: seq<string>, opts: OptionList)
    requires forall j :: 0 <= j < |opts| ==> !AnyBegins(lines, opts[j].0)
    ensures Absent(lines, opts) == opts
  {
    if opts != [] {
      var pre := opts[..|opts| - 1];
      assert forall j :: 0 <= j < |pre| ==> pre[j] == opts[j];
      AbsentAll(lines, pre);
      assert pre + [opts[|opts| - 1]] == opts;
    }
  }

  lemma AnyBeginsAppend(a: seq<string>, b: seq<string>, k: string)
    ensures AnyBegins(a + b, k) <==> AnyBegins(a, k) || AnyBegins(b, k)
  {
    var ab := a + b;
    if AnyBegins(ab, k) {
      var i :| 0 <= i < |ab| && Begins(ab[i], k);
      if i < |a| {
        assert a[i] == ab[i];
      } else {
        assert b[i - |a|] == ab[i];
      }
    }
    if AnyBegins(a, k) {
      var i :| 0 <= i < |a| && Begins(a[i], k);
      assert ab[i] == a[i];
    }
    if AnyBegins(b, k) {
      var i :| 0 <= i < |b| && Begins(b[i], k);
      assert ab[|a| + i] == b[i];
    }
  }

  /** For well-formed options, a rewritten line starts with a key exactly when the input
      line did. */
  lemma RewrittenBegins(l: string, opts: OptionList, x: nat)
    requires WellFormed(opts) && x < |opts|
    ensures Begins(Rewritten(l, opts), opts[x].0) <==> Begins(l, opts[x].0)
  {
    match KeyIndex(l, opts)
    case None =>
    case Some(j) =>
      SettingBegins(opts[j].0, opts[j].1);
      SettingBeginsOnlyPrefixes(opts[j].0, opts[j].1, opts[x].0);
      PrefixOfBoth(Strip(l), opts[j].0, opts[x].0);
  }

  /** The first pass keeps which keys start some line. */
  lemma PassBegins(lines: seq<string>, opts: OptionList, x: nat)
    requires WellFormed(opts) && x < |opts|
    ensures AnyBegins(Pass(lines, opts), opts[x].0) <==> AnyBegins(lines, opts[x].0)
  {
    var p := Pass(lines, opts);
    forall i | 0 <= i < |lines|
      ensures Begins(p[i], opts[x].0) <==> Begins(lines[i], opts[x].0)
    {
      RewrittenBegins(lines[i], opts, x);
    }
  }

  /** The lines of earlier options do not start with a later option's key. */
  lemma NoSettingBegins(kvs: OptionList, opts: OptionList, m: nat)
    requires WellFormed(opts) && m < |opts|
    requires forall e :: e in kvs ==> e in opts[..m]
    ensures !AnyBegins(Settings(kvs), opts[m].0)
  {
    forall i | 0 <= i < |kvs|
      ensures !Begins(Settings(kvs)[i], opts[m].0)
    {
      var e := kvs[i];
      assert e in opts[..m];
      var j :| 0 <= j < m && opts[..m][j] == e;
      assert opts[j] == e;
      SettingBeginsOnlyPrefixes(e.0, e.1, opts[m].0);
    }
  }

  /** Before the turn of option `m`, its key starts a line exactly when it starts an
      input line. */
  lemma SoFarBegins(lines: seq<string>, opts: OptionList, m: nat)
    requires WellFormed(opts) && m < |opts|
    ensures AnyBegins(Pass(lines, opts) + Settings(Absent(lines, opts[..m])), opts[m].0) <==> AnyBegins(lines, opts[m].0)
  {
    var a := Absent(lines, opts[..m]);
    AnyBeginsAppend(Pass(lines, opts), Settings(a), opts[m].0);
    NoSettingBegins(a, opts, m);
    PassBegins(lines, opts, m);
  }

  /** One turn of the second loop adds the next option's line exactly when that option is
      absent from the input. */
  lemma StepAbsent(lines: seq<string>, opts: OptionList, m: nat)
    requires m < |opts|
    requires AnyBegins(Pass(lines, opts) + Settings(Absent(lines, opts[..m])), opts[m].0) <==> AnyBegins(lines, opts[m].0)
    ensures Step(Pass(lines, opts) + Settings(Absent(lines, opts[..m])), opts[m]) ==
            Pass(lines, opts) + Settings(Absent(lines, opts[..m + 1]))
  {
    var a := Absent(lines, opts[..m]);
    assert opts[..m + 1][..m] == opts[..m];
    assert opts[..m + 1][m] == opts[m];
    if AnyBegins(lines, opts[m].0) {
      assert Absent(lines, opts[..m + 1]) == a + [] == a;
    } else {
      assert Absent(lines, opts[..m + 1]) == a + [opts[m]];
      SettingsSnoc(a, opts[m]);
    }
  }

  /** After `m` turns of the second loop, the lines of the first pass are followed by the
      lines of the absent options among the first `m`. */
  lemma {:induction false} AppendedIsAbsent(lines: seq<string>, opts: OptionList, m: nat)
    requires WellFormed(opts) && m <= |opts|
    ensures Appended(Pass(lines, opts), opts[..m]) == Pass(lines, opts) + Settings(Absent(lines, opts[..m]))
  {
    var p := Pass(lines, opts);
    if m == 0 {
      assert opts[..0] == [];
      assert p + Settings([]) == p;
    } else {
      AppendedIsAbsent(lines, opts, m - 1);
      assert opts[..m][..m - 1] == opts[..m - 1];
      assert opts[..m][m - 1] == opts[m - 1];
      SoFarBegins(lines, opts, m - 1);
      StepAbsent(lines, opts, m - 1);
    }
  }

  /** The rewrite is the first pass followed by one line per option no input line starts
      with, in option order: the output has that many more lines than the input. */
  lemma RewriteShape(lines: seq<string>, opts: OptionList)
    requires WellFormed(opts)
    ensures Rewrite(lines, opts) == Pass(lines, opts) + Settings(Absent(lines, opts))
    ensures |Rewrite(lines, opts)| == |lines| + |Absent(lines, opts)|
  {
    AppendedIsAbsent(lines, opts, |opts|);
    assert opts[..|opts|] == opts;
  }

  /** Input lines stay in place and in order: a line that starts with no key is kept as it
      is, and a line that does becomes the setting of the first such key. */
  lemma KeptInPlace(lines: seq<string>, opts: OptionList, i: nat)
    requires i < |lines|
    ensures Rewrite(lines, opts)[..|lines|] == Pass(lines, opts)
    ensures KeyIndex(lines[i], opts).None? ==> Rewrite(lines, opts)[i] == lines[i]
    ensures KeyIndex(lines[i], opts).Some? ==>
              Rewrite(lines, opts)[i] == Setting(opts[KeyIndex(lines[i], opts).value].0, opts[KeyIndex(lines[i], opts).value].1)
  {
    assert Rewrite(lines, opts)[i] == Rewrite(lines, opts)[..|lines|][i];
  }

  /** A commented setting such as `#write_enable=NO` starts with no key, so it is neither
      replaced nor removed. */
  lemma CommentKept(lines: seq<string>, opts: OptionList, i: nat)
    requires i < |lines| && Strip(lines[i]) != [] && Strip(lines[i])[0] == '#'
    requires forall j :: 0 <= j < |opts| ==> KeyOk(opts[j].0)
    ensures Rewrite(lines, opts)[i] == lines[i]
  {
    forall j | 0 <= j < |opts|
      ensures !Begins(lines[i], opts[j].0)
    {
      assert KeyChar(opts[j].0[0]);
    }
    KeptInPlace(lines, opts, i);
  }

  /** After the rewrite every option key starts at least one line. */
  lemma EveryKeyBegins(lines: seq<string>, opts: OptionList, x: nat)
    requires WellFormed(opts) && x < |opts|
    ensures AnyBegins(Rewrite(lines, opts), opts[x].0)
  {
    var kx := opts[x].0;
    var a := Absent(lines, opts);
    RewriteShape(lines, opts);
    PassBegins(lines, opts, x);
    AnyBeginsAppend(Pass(lines, opts), Settings(a), kx);
    if !AnyBegins(lines, kx) {
      AbsentMember(lines, opts, x);
      var i :| 0 <= i < |a| && a[i] == opts[x];
      SettingBegins(kx, opts[x].1);
      assert Settings(a)[i] == Setting(kx, opts[x].1);
    }
  }

  /** An option's own line is recognised as that option's line. */
  lemma SettingFixed(opts: OptionList, x: nat)
    requires WellFormed(opts) && x < |opts|
    ensures KeyIndex(Setting(opts[x].0, opts[x].1), opts) == Some(x)
  {
    var s := Setting(opts[x].0, opts[x].1);
    SettingBegins(opts[x].0, opts[x].1);
    forall j | 0 <= j < |opts| && j != x
      ensures !Begins(s, opts[j].0)
    {
      SettingBeginsOnlyPrefixes(opts[x].0, opts[x].1, opts[j].0);
    }
    KeyIndexIs(s, opts, Some(x));
  }

  /** Rewriting a rewritten line changes nothing. */
  lemma RewrittenFixed(l: string, opts: OptionList)
    requires WellFormed(opts)
    ensures Rewritten(Rewritten(l, opts), opts) == Rewritten(l, opts)
  {
    match KeyIndex(l, opts)
    case None =>
    case Some(j) =>
      SettingFixed(opts, j);
  }

  /** Every line of the rewrite is left as it is by a second first pass. */
  lemma PassOfRewrite(lines: seq<string>, opts: OptionList)
    requires WellFormed(opts)
    ensures Pass(Rewrite(lines, opts), opts) == Rewrite(lines, opts)
  {
    var r := Rewrite(lines, opts);
    var a := Absent(lines, opts);
    RewriteShape(lines, opts);
    forall i | 0 <= i < |r|
      ensures Rewritten(r[i], opts) == r[i]
    {
      if i < |lines| {
        RewrittenFixed(lines[i], opts);
      } else {
        var e := a[i - |lines|];
        assert e in a;
        var x :| 0 <= x < |opts| && opts[x] == e;
        SettingFixed(opts, x);
      }
    }
  }

  /** Running the rewrite on its own output changes nothing. */
  lemma RewriteIdempotent(lines: seq<string>, opts: OptionList)
    requires WellFormed(opts)
    ensures Rewrite(Rewrite(lines, opts), opts) == Rewrite(lines, opts)
  {
    var r := Rewrite(lines, opts);
    PassOfRewrite(lines, opts);
    forall x | 0 <= x < |opts|
      ensures AnyBegins(r, opts[x].0)
    {
      EveryKeyBegins(lines, opts, x);
    }
    AbsentEmpty(r, opts);
    RewriteShape(r, opts);
    assert r + Settings([]) == r;
  }

  // ---------------------------------------------------------------- the file as written

  /** The line of a well-formed option is one terminated line. */
  lemma SettingLine(k: string, v: string)
    requires KeyOk(k) && ValueOk(v)
    ensures LineOk(Setting(k, v)) && Terminated(Setting(k, v))
  {
    var s := Setting(k, v);
    forall j | 0 <= j < |s| - 1
      ensures s[j] != '\n'
    {
      if j < |k| {
        assert s[j] == k[j] && KeyChar(k[j]);
      } else if j > |k| {
        assert s[j] == v[j - |k| - 1];
      }
    }
  }

  /** Every line is a terminated line. */
  predicate AllTerminated(lines: seq<string>) {
    forall k :: 0 <= k < |lines| ==> LineOk(lines[k]) && Terminated(lines[k])
  }

  /** The rewrite of terminated lines with well-formed options is terminated lines. */
  lemma RewriteTerminated(lines: seq<string>, opts: OptionList)
    requires WellFormed(opts) && AllTerminated(lines)
    ensures AllTerminated(Rewrite(lines, opts))
  {
    var r := Rewrite(lines, opts);
    var a := Absent(lines, opts);
    RewriteShape(lines, opts);
    forall i | 0 <= i < |r|
      ensures LineOk(r[i]) && Terminated(r[i])
    {
      if i < |lines| {
        match KeyIndex(lines[i], opts)
        case None =>
        case Some(j) =>
          SettingLine(opts[j].0, opts[j].1);
      } else {
        var e := a[i - |lines|];
        assert e in a;
        var x :| 0 <= x < |opts| && opts[x] == e;
        SettingLine(e.0, e.1);
      }
    }
  }

  /** The text `update_vsftpd_conf` writes for the text it read: the lines it writes run
      together, so an input whose last line has no line break gets the first appended
      setting glued to that line. */
  function WrittenText(text: string, opts: OptionList): string {
    Concat(Rewrite(ReadLines(text), opts))
  }

  /** The line `listen=YES` without its line break, and that line with the first setting
      glued to it. */
  const Listen: string := "listen=YES"
  const Glued: string := "listen=YESwrite_enable=YES\n"

  /** `readlines()` of the unterminated line is that line alone. */
  lemma ListenRead()
    ensures ReadLines(Listen) == [Listen]
  {
    assert LineOk(Listen);
    assert WellSplit([Listen]);
    ReadLinesConcat([Listen]);
    assert Concat([Listen]) == Listen + Concat([]);
  }

  /** Every key is longer than the line, so none starts it. */
  lemma ListenBeginsNoKey(j: nat)
    requires j < |VsftpdOptions|
    ensures !Begins(Listen, VsftpdOptions[j].0)
  {
    assert |VsftpdOptions[j].0| > |Listen|;
  }

  /** A file of one line no key starts: the line is kept and every option is appended. */
  lemma UntouchedLine(l: string, opts: OptionList)
    requires WellFormed(opts)
    requires forall j :: 0 <= j < |opts| ==> !Begins(l, opts[j].0)
    ensures Rewrite([l], opts) == [l] + Settings(opts)
  {
    forall j | 0 <= j < |opts|
      ensures !AnyBegins([l], opts[j].0)
    {
    }
    AbsentAll([l], opts);
    KeyIndexIs(l, opts, None);
    assert Pass([l], opts) == [l];
    RewriteShape([l], opts);
  }

  /** The rewrite of the unterminated `listen=YES` line keeps it and appends every option. */
  lemma ListenRewrite()
    ensures Rewrite(ReadLines(Listen), VsftpdOptions) == [Listen] + Settings(VsftpdOptions)
  {
    ListenRead();
    forall j | 0 <= j < |VsftpdOptions|
      ensures !Begins(Listen, VsftpdOptions[j].0)
    {
      ListenBeginsNoKey(j);
    }
    OptionsWellFormed();
    UntouchedLine(Listen, VsftpdOptions);
  }

  /** Concatenating lines is concatenating the first two and then the rest. */
  lemma ConcatGlue(x: string, ys: seq<string>)
    requires ys != []
    ensures Concat([x] + ys) == Concat([x + ys[0]] + ys[1..])
  {
    var y := ys[0];
    var zs := ys[1..];
    assert ys == [y] + zs;
    assert [x] + ys == [x, y] + zs;
    ConcatAppend([x, y], zs);
    ConcatAppend([x + y], zs);
    ConcatPair(x, y);
  }

  lemma ConcatPair(x: string, y: string)
    ensures Concat([x, y]) == Concat([x + y])
  {
    assert [x, y][1..] == [y];
    assert [y][1..] == [];
    assert [x + y][1..] == [];
  }

  /** The first appended setting glued to the line. */
  lemma GluedIs()
    ensures Listen + Settings(VsftpdOptions)[0] == Glued
  {
  }

  /** Written out, those lines are the glued line followed by the other settings. */
  lemma ListenWritten()
    ensures WrittenText(Listen, VsftpdOptions) == Concat([Glued] + Settings(VsftpdOptions[1..]))
  {
    var set0 := Settings(VsftpdOptions);
    ListenRewrite();
    ConcatGlue(Listen, set0);
    GluedIs();
    assert set0[1..] == Settings(VsftpdOptions[1..]);
  }

  /** The glued line and the other settings are lines as `readlines()` gives them back. */
  lemma GluedWellSplit()
    ensures WellSplit([Glued] + Settings(VsftpdOptions[1..]))
  {
    var o := VsftpdOptions;
    var rest := Settings(o[1..]);
    OptionKeysOk();
    forall i | 0 <= i < |rest|
      ensures LineOk(rest[i]) && Terminated(rest[i])
    {
      SettingLine(o[i + 1].0, o[i + 1].1);
    }
    assert LineOk(Glued) && Terminated(Glued);
    WellSplitCons(Glued, rest);
  }

  /** A configuration ending in `listen=YES` with no final line break: after the rewrite the
      file's first appended setting sits on the `listen` line, so read back no line of the
      file starts with `write_enable`, and the next rewrite appends it once more. */
  lemma GluedLastLine()
    ensures ReadLines(WrittenText(Listen, VsftpdOptions)) == [Glued] + Settings(VsftpdOptions[1..])
    ensures !AnyBegins(ReadLines(WrittenText(Listen, VsftpdOptions)), "write_enable")
  {
    var o := VsftpdOptions;
    var rest := Settings(o[1..]);
    var back := [Glued] + rest;
    ListenWritten();
    GluedWellSplit();
    ReadLinesConcat(back);
    GluedLineBegins(Glued);
    OptionsWellFormed();
    forall i | 0 <= i < |back|
      ensures !Begins(back[i], "write_enable")
    {
      if i > 0 {
        assert back[i] == rest[i - 1] == Setting(o[i].0, o[i].1);
        SettingBeginsOnlyPrefixes(o[i].0, o[i].1, o[0].0);
      }
    }
  }

  /** The glued line starts with `listen`, not `write_enable`. */
  lemma GluedLineBegins(glued: string)
    requires glued == "listen=YESwrite_enable=YES\n"
    ensures !Begins(glued, "write_enable")
  {
    assert LStrip(glued) == glued;
    RStripKeeps(glued, 0);
    assert Strip(glued)[0] == 'l';
  }

  // ---------------------------------------------------------------- the corrected rewrite

  /** The lines read, with a line break added to a last line that has none. */
  function Terminate(lines: seq<string>): (r: seq<string>)
    ensures |r| == |lines|
    ensures forall k :: 0 <= k < |lines| - 1 ==> r[k] == lines[k]
    ensures lines != [] ==>
              r[|lines| - 1] == if Terminated(lines[|lines| - 1]) then lines[|lines| - 1] else lines[|lines| - 1] + "\n"
  {
    if lines == [] || Terminated(lines[|lines| - 1]) then lines
    else lines[..|lines| - 1] + [lines[|lines| - 1] + "\n"]
  }

  /** Lines as `readlines()` produces them are all terminated once the last one is. */
  lemma TerminateWellSplit(lines: seq<string>)
    requires WellSplit(lines)
    ensures AllTerminated(Terminate(lines))
  {
    if lines != [] && !Terminated(lines[|lines| - 1]) {
      var l := lines[|lines| - 1];
      var t := l + "\n";
      forall j | 0 <= j < |t| - 1
        ensures t[j] != '\n'
      {
        if j < |l| - 1 {
          assert t[j] == l[j];
        }
      }
    }
  }

  /** The text the reinstall should write: the same rewrite over lines that each end with a
      line break. */
  function FixedText(text: string, opts: OptionList): string {
    Concat(Rewrite(Terminate(ReadLines(text)), opts))
  }

  /** Read back, the corrected text has the rewritten lines, so every option key starts one
      of its lines. */
  lemma FixedTextHasEveryKey(text: string, opts: OptionList, x: nat)
    requires WellFormed(opts) && x < |opts|
    ensures ReadLines(FixedText(text, opts)) == Rewrite(Terminate(ReadLines(text)), opts)
    ensures AnyBegins(ReadLines(FixedText(text, opts)), opts[x].0)
  {
    FixedTextReadBack(text, opts);
    EveryKeyBegins(Terminate(ReadLines(text)), opts, x);
  }

  lemma FixedTextReadBack(text: string, opts: OptionList)
    requires WellFormed(opts)
    ensures ReadLines(FixedText(text, opts)) == Rewrite(Terminate(ReadLines(text)), opts)
    ensures AllTerminated(ReadLines(FixedText(text, opts)))
  {
    var lines := Terminate(ReadLines(text));
    ReadLinesWellSplit(text);
    TerminateWellSplit(ReadLines(text));
    RewriteTerminated(lines, opts);
    ReadLinesConcat(Rewrite(lines, opts));
  }

  /** Running the corrected rewrite on its own output changes nothing. */
  lemma FixedTextIdempotent(text: string, opts: OptionList)
    requires WellFormed(opts)
    ensures FixedText(FixedText(text, opts), opts) == FixedText(text, opts)
  {
    var r := Rewrite(Terminate(ReadLines(text)), opts);
    FixedTextReadBack(text, opts);
    assert Terminate(r) == r;
    RewriteIdempotent(Terminate(ReadLines(text)), opts);
  }

  /** On a file whose last line ends with a line break, and on an empty file, the corrected
      rewrite writes what the original does. */
  lemma FixedAgrees(text: string, opts: OptionList)
    requires text == [] || text[|text| - 1] == '\n'
    ensures FixedText(text, opts) == WrittenText(text, opts)
  {
    var lines := ReadLines(text);
    if lines != [] {
      var n := |lines| - 1;
      assert lines == lines[..n] + [lines[n]];
      ConcatAppend(lines[..n], [lines[n]]);
      assert Concat([lines[n]]) == lines[n] + Concat([]);
      assert text[|text| - 1] == lines[n][|lines[n]| - 1];
    }
  }
}
