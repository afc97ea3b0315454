/**
  * The build step that writes deployment settings into the web page: for each
  * of five fixed variable names, in order, every `{{NAME}}` token in the page
  * is replaced by the variable's value (the empty string when it is unset or
  * empty), and the page is written back where it was read from. A missing
  * page ends the run with exit status 1.
  *
  * The file system is a `Disk` object holding file contents by path and
  * logging every read and write; the process environment is a map.
  */
module EnvInjection {
  import JsReplace
  import Substrings
  import opened Wrappers

  /** The variables substituted, in the order the run handles them. */
  const EnvVarNames: seq<string> :=
    ["SUPABASE_URL", "SUPABASE_ANON_KEY", "SUPABASE_SERVICE_KEY", "SMTP_EMAIL", "SMTP_PASSWORD"]

  /** The page rewritten by the run (`../web/index.html` next to the script). */
  const IndexPath: string := "web/index.html"

  /** The token standing for variable `name` in the page. */
  function Placeholder(name: string): (token: string)
    ensures |token| == |name| + 4 && token[..2] == "{{"
  {
    var token := "{{" + name + "}}";
    assert token[..2] == "{{" by { assert token[0] == '{' && token[1] == '{'; }
    token
  }

  /** The variable name inside a token, if the text is one. */
  function TokenName(token: string): Option<string> {
    if |token| >= 4 && token[..2] == "{{" && token[|token| - 2..] == "}}" then
      Some(token[2..|token| - 2])
    else
      None
  }

  /** Reading the name back out of a token gives the name it was built from. */
  lemma {:induction false} TokenNameOfPlaceholder(name: string)
    ensures TokenName(Placeholder(name)) == Some(name)
  {
    var token := Placeholder(name);
    assert token[..2] == "{{" && token[|token| - 2..] == "}}" && token[2..|token| - 2] == name;
  }

  /** Distinct names have distinct tokens. */
  lemma {:induction false} PlaceholderInjective(a: string, b: string)
    requires Placeholder(a) == Placeholder(b)
    ensures a == b
  {
    TokenNameOfPlaceholder(a);
    TokenNameOfPlaceholder(b);
  }

  /** `process.env[name] || ''`: the value when set, the empty string otherwise. */
  function EnvValue(env: map<string, string>, name: string): (value: string)
    ensures name in env ==> value == env[name]
    ensures name !in env ==> value == ""
  {
    if name in env && env[name] != "" then env[name] else ""
  }

  /** One pass of the loop: replace every token of `name` by its value. */
  function Step(html: string, env: map<string, string>, name: string): string {
    JsReplace.ReplaceAll(html, Placeholder(name), EnvValue(env, name))
  }

  /** The page after the passes for `names`, each applied to the result of the one before. */
  function Injected(html: string, env: map<string, string>, names: seq<string>): string
    decreases |names|
  {
    if |names| == 0 then html
    else Step(Injected(html, env, names[..|names| - 1]), env, names[|names| - 1])
  }

  /** The substitution loop of the run, over the five names in order. */
  method Substitute(html: string, env: map<string, string>) returns (result: string)
    ensures result == Injected(html, env, EnvVarNames)
  {
    result := html;
    var i := 0;
    while i < |EnvVarNames|
      invariant 0 <= i <= |EnvVarNames|
      invariant result == Injected(html, env, EnvVarNames[..i])
    {
      var name := EnvVarNames[i];
      result := JsReplace.ReplaceAll(result, Placeholder(name), EnvValue(env, name));
      assert EnvVarNames[..i + 1][..i] == EnvVarNames[..i];
      i := i + 1;
    }
    assert EnvVarNames[..i] == EnvVarNames;
  }

  /** The five passes, spelled out: exactly the listed names, in list order. */
  lemma {:induction false} InjectedInListOrder(html: string, env: map<string, string>)
    ensures Injected(html, env, EnvVarNames) ==
      Step(Step(Step(Step(Step(html, env, "SUPABASE_URL"), env, "SUPABASE_ANON_KEY"),
        env, "SUPABASE_SERVICE_KEY"), env, "SMTP_EMAIL"), env, "SMTP_PASSWORD")
  {
    var n := EnvVarNames;
    var p0 := html;
    var p1 := Step(p0, env, "SUPABASE_URL");
    var p2 := Step(p1, env, "SUPABASE_ANON_KEY");
    var p3 := Step(p2, env, "SUPABASE_SERVICE_KEY");
    var p4 := Step(p3, env, "SMTP_EMAIL");
    assert n[..1][..0] == [] && n[..1][0] == "SUPABASE_URL";
    assert Injected(html, env, n[..1]) == p1;
    assert n[..2][..1] == n[..1] && n[..2][1] == "SUPABASE_ANON_KEY";
    assert Injected(html, env, n[..2]) == p2;
    assert n[..3][..2] == n[..2] && n[..3][2] == "SUPABASE_SERVICE_KEY";
    assert Injected(html, env, n[..3]) == p3;
    assert n[..4][..3] == n[..3] && n[..4][3] == "SMTP_EMAIL";
    assert Injected(html, env, n[..4]) == p4;
    assert n[..4] == n[..|n| - 1];
  }

  /** A page with no `{{` anywhere comes out of any number of passes unchanged. */
  lemma {:induction false} InjectedWithoutBraces(html: string, env: map<string, string>, names: seq<string>)
    requires !Substrings.Occurs(html, "{{")
    ensures Injected(html, env, names) == html
    decreases |names|
  {
    if |names| > 0 {
      InjectedWithoutBraces(html, env, names[..|names| - 1]);
      var token := Placeholder(names[|names| - 1]);
      forall k | Substrings.OccursAt(html, token, k) ensures false {
        assert html[k..k + 2] == html[k..k + |token|][..2];
        assert Substrings.OccursAt(html, "{{", k);
      }
      JsReplace.ReplaceAllAbsent(html, token, EnvValue(env, names[|names| - 1]));
    }
  }

  /**
    * A pass whose value holds no `$` puts that value, unchanged, in place of
    * each token and keeps the text between tokens as it was; the page grows
    * by |value| - |token| per token found.
    */
  lemma {:induction false} StepVerbatim(html: string, env: map<string, string>, name: string)
    requires '$' !in EnvValue(env, name)
    ensures Step(html, env, name) ==
      JsReplace.Join(JsReplace.Split(html, Placeholder(name)), EnvValue(env, name))
    ensures |Step(html, env, name)| ==
      |html| + JsReplace.Count(html, Placeholder(name)) * (|EnvValue(env, name)| - |Placeholder(name)|)
  {
    JsReplace.ReplaceAllLiteral(html, Placeholder(name), EnvValue(env, name));
    JsReplace.ReplaceAllLength(html, Placeholder(name), EnvValue(env, name));
  }

  /** A pass for an unset variable deletes its tokens and keeps everything else. */
  lemma {:induction false} StepUnset(html: string, env: map<string, string>, name: string)
    requires name !in env
    ensures Step(html, env, name) == JsReplace.Join(JsReplace.Split(html, Placeholder(name)), "")
    ensures |Step(html, env, name)| == |html| - JsReplace.Count(html, Placeholder(name)) * (|name| + 4)
  {
    assert EnvValue(env, name) == "";
    StepVerbatim(html, env, name);
    Shrink(|html|, JsReplace.Count(html, Placeholder(name)), |name| + 4);
  }

  /** Growing by c times a negative difference is shrinking by c times its size. */
  lemma {:induction false} Shrink(x: int, c: int, m: int)
    ensures x + c * (0 - m) == x - c * m
  {
    assert c * (0 - m) == -(c * m);
  }

  /** A page that is a single token becomes the value after `$`-pattern expansion, with nothing before or after the match. */
  lemma {:induction false} StepOfLoneToken(env: map<string, string>, name: string)
    ensures Step(Placeholder(name), env, name) ==
      JsReplace.Substitution(EnvValue(env, name), Placeholder(name), "", "")
  {
    var token := Placeholder(name);
    var v := EnvValue(env, name);
    assert token[..0] == "" && token[|token|..] == "";
    assert token[0..|token|] == token;
    assert JsReplace.ReplaceFrom(token, token, v, |token|) == "";
  }

  /**
    * A value is not always inserted as it is: a variable whose value is `$&`
    * puts its own token back, so the token is still in the page after its pass.
    */
  lemma {:induction false} DollarAmpersandKeepsToken(env: map<string, string>, name: string)
    requires name in env && env[name] == "$&"
    ensures Step(Placeholder(name), env, name) == Placeholder(name)
  {
    var token := Placeholder(name);
    StepOfLoneToken(env, name);
    JsReplace.DollarPatterns("", token, "", "");
    assert "$&" + "" == "$&";
  }

  /**
    * With no variable set, the five passes on a page holding neither `U` nor
    * `W` come down to the SMTP_EMAIL pass: every SUPABASE token has a `U`, and
    * the SMTP_PASSWORD token a `W`, that such a page cannot match.
    */
  lemma {:induction false} OnlyEmailPass(html: string)
    requires 'U' !in html && 'W' !in Step(html, map[], "SMTP_EMAIL")
    ensures Injected(html, map[], EnvVarNames) == Step(html, map[], "SMTP_EMAIL")
  {
    var env: map<string, string> := map[];
    InjectedInListOrder(html, env);
    var url, anon, service := Placeholder("SUPABASE_URL"), Placeholder("SUPABASE_ANON_KEY"), Placeholder("SUPABASE_SERVICE_KEY");
    assert url[3] == 'U' && anon[3] == 'U' && service[3] == 'U';
    Substrings.AbsentByCharacter(html, url, 3);
    JsReplace.ReplaceAllAbsent(html, url, EnvValue(env, "SUPABASE_URL"));
    Substrings.AbsentByCharacter(html, anon, 3);
    JsReplace.ReplaceAllAbsent(html, anon, EnvValue(env, "SUPABASE_ANON_KEY"));
    Substrings.AbsentByCharacter(html, service, 3);
    JsReplace.ReplaceAllAbsent(html, service, EnvValue(env, "SUPABASE_SERVICE_KEY"));
    var emailed := Step(html, env, "SMTP_EMAIL");
    var password := Placeholder("SMTP_PASSWORD");
    assert password[11] == 'W';
    Substrings.AbsentByCharacter(emailed, password, 11);
    JsReplace.ReplaceAllAbsent(emailed, password, EnvValue(env, "SMTP_PASSWORD"));
  }

  /** The page `{{{{SMTP_EMAIL}}SMTP_EMAIL}}`: a token inside the braces of another. */
  function NestedToken(): (page: string)
    ensures 'U' !in page
  {
    var page := "{{" + Placeholder("SMTP_EMAIL") + "SMTP_EMAIL}}";
    assert 'U' !in Placeholder("SMTP_EMAIL") by {
      assert Placeholder("SMTP_EMAIL") == "{{" + "SMTP_EMAIL" + "}}";
    }
    assert 'U' !in "SMTP_EMAIL}}";
    page
  }

  /**
    * With the variable unset, the SMTP_EMAIL pass over `{{` + its token + a
    * text without the token deletes the token, and the two braces before it
    * close up with that text.
    */
  lemma {:induction false} EmailPassInsideBraces(rest: string)
    requires !Substrings.Occurs(rest, Placeholder("SMTP_EMAIL"))
    ensures Step("{{" + Placeholder("SMTP_EMAIL") + rest, map[], "SMTP_EMAIL") == "{{" + rest
  {
    var token := Placeholder("SMTP_EMAIL");
    var page := "{{" + token + rest;
    assert page[..2] == "{{" && page[2..16] == token && page[16..] == rest;
    forall k | 16 <= k ensures !Substrings.OccursAt(page, token, k) {
      Substrings.OccursAtDrop(page, token, 16, k);
    }
    JsReplace.ReplaceFromAbsent(page, token, "", 16);
    assert JsReplace.ReplaceFrom(page, token, "", 2) == "" + rest by {
      assert Substrings.OccursAt(page, token, 2);
    }
    assert page[2] != token[2] && page[3] != token[2];
    assert JsReplace.ReplaceFrom(page, token, "", 1) == [page[1]] + rest by {
      assert page[1..15][2] == page[3];
    }
    assert JsReplace.ReplaceFrom(page, token, "", 0) == [page[0]] + [page[1]] + rest by {
      assert page[0..14][2] == page[2];
    }
    assert [page[0]] + [page[1]] == "{{";
  }

  /** The nested page, after the SMTP_EMAIL pass with the variable unset: the token the braces closed up into. */
  lemma {:induction false} EmailPassOnNestedToken()
    ensures Step(NestedToken(), map[], "SMTP_EMAIL") == Placeholder("SMTP_EMAIL")
  {
    var token := Placeholder("SMTP_EMAIL");
    assert token[0] == '{' && '{' !in "SMTP_EMAIL}}";
    Substrings.AbsentByCharacter("SMTP_EMAIL}}", token, 0);
    EmailPassInsideBraces("SMTP_EMAIL}}");
    assert "{{" + "SMTP_EMAIL}}" == "{{" + "SMTP_EMAIL" + "}}";
  }

  /**
    * A second run is not always a no-op, even with no variable set and no
    * value containing a token: on the nested page the first run deletes the
    * inner token, the outer braces close up around the name into a new token,
    * and the second run deletes that one.
    */
  lemma {:induction false} RerunNotIdempotent()
    ensures
      var once := Injected(NestedToken(), map[], EnvVarNames);
      once == Placeholder("SMTP_EMAIL") && Injected(once, map[], EnvVarNames) == "" &&
      Injected(once, map[], EnvVarNames) != once
  {
    var env: map<string, string> := map[];
    var token := Placeholder("SMTP_EMAIL");
    assert 'U' !in token && 'W' !in token by {
      assert token == "{{" + "SMTP_EMAIL" + "}}";
    }
    EmailPassOnNestedToken();
    OnlyEmailPass(NestedToken());
    StepOfLoneToken(env, "SMTP_EMAIL");
    assert Step(token, env, "SMTP_EMAIL") == "";
    OnlyEmailPass(token);
  }

  /**
    * A text that starts `{{X` cannot occur in a page whose only `{`s are at
    * indices 0 to 3, unless it matches at index 2; it does not when the two
    * differ at the text's index 7.
    */
  lemma {:induction false} AbsentPastBraces(page: string, pat: string)
    requires |pat| >= 8 && |page| >= 10
    requires pat[1] == '{' && pat[2] != '{' && pat[7] != page[9]
    requires page[2] == '{' && page[3] == '{' && '{' !in page[4..]
    ensures !Substrings.Occurs(page, pat)
  {
    forall k | 0 <= k && k + |pat| <= |page| ensures !Substrings.OccursAt(page, pat, k) {
      var window := page[k..k + |pat|];
      if k >= 3 {
        assert window[1] == page[4..][k - 3];
      } else if k < 2 {
        assert window[2] == page[k + 2];
      } else {
        assert window[7] == page[9];
      }
    }
  }

  /** Where the braces of `{{{{SMTP_EMAIL}}SMTP_PASSWORD}}` are, and its letter at index 9. */
  lemma {:induction false} NestedPageShape()
    ensures
      var page := "{{" + Placeholder("SMTP_EMAIL") + "SMTP_PASSWORD}}";
      |page| == 31 && page[2] == '{' && page[3] == '{' && page[9] == 'E' && '{' !in page[4..]
  {
    var token := Placeholder("SMTP_EMAIL");
    var page := "{{" + token + "SMTP_PASSWORD}}";
    assert token == "{{" + "SMTP_EMAIL" + "}}";
    assert token[2..] == "SMTP_EMAIL" + "}}";
    assert page[4..] == token[2..] + "SMTP_PASSWORD}}";
    assert '{' !in "SMTP_EMAIL" && '{' !in "}}" && '{' !in "SMTP_PASSWORD}}";
    assert page[9] == token[7];
  }

  /**
    * The page `{{{{SMTP_EMAIL}}SMTP_PASSWORD}}` holds no SMTP_PASSWORD token:
    * `{{S` occurs only at index 2, and there the name goes on as `SMTP_E`.
    */
  lemma {:induction false} NoPasswordTokenInNestedPage()
    ensures !Substrings.Occurs("{{" + Placeholder("SMTP_EMAIL") + "SMTP_PASSWORD}}", Placeholder("SMTP_PASSWORD"))
  {
    var password := Placeholder("SMTP_PASSWORD");
    assert password == "{{" + "SMTP_PASSWORD" + "}}";
    assert password[1] == '{' && password[2] == 'S' && password[7] == 'P';
    NestedPageShape();
    AbsentPastBraces("{{" + Placeholder("SMTP_EMAIL") + "SMTP_PASSWORD}}", password);
  }

  /**
    * The passes do not commute, even with no variable set: on
    * `{{{{SMTP_EMAIL}}SMTP_PASSWORD}}` the SMTP_EMAIL pass forms an
    * SMTP_PASSWORD token, which a later SMTP_PASSWORD pass deletes and an
    * earlier one misses.
    */
  lemma {:induction false} PassOrderMatters()
    ensures
      var page := "{{" + Placeholder("SMTP_EMAIL") + "SMTP_PASSWORD}}";
      Step(Step(page, map[], "SMTP_EMAIL"), map[], "SMTP_PASSWORD") == "" &&
      Step(Step(page, map[], "SMTP_PASSWORD"), map[], "SMTP_EMAIL") == Placeholder("SMTP_PASSWORD")
  {
    var env: map<string, string> := map[];
    var token := Placeholder("SMTP_EMAIL");
    var page := "{{" + token + "SMTP_PASSWORD}}";
    assert token[0] == '{' && '{' !in "SMTP_PASSWORD}}";
    Substrings.AbsentByCharacter("SMTP_PASSWORD}}", token, 0);
    EmailPassInsideBraces("SMTP_PASSWORD}}");
    assert "{{" + "SMTP_PASSWORD}}" == Placeholder("SMTP_PASSWORD");
    StepOfLoneToken(env, "SMTP_PASSWORD");
    NoPasswordTokenInNestedPage();
    JsReplace.ReplaceAllAbsent(page, Placeholder("SMTP_PASSWORD"), EnvValue(env, "SMTP_PASSWORD"));
  }

  /** A run whose result holds no `{{` is a fixed point: running again changes nothing. */
  lemma {:induction false} RerunWithoutBraces(html: string, env: map<string, string>)
    requires !Substrings.Occurs(Injected(html, env, EnvVarNames), "{{")
    ensures Injected(Injected(html, env, EnvVarNames), env, EnvVarNames) == Injected(html, env, EnvVarNames)
  {
    InjectedWithoutBraces(Injected(html, env, EnvVarNames), env, EnvVarNames);
  }

  /**
    * The file system as the run sees it: file contents by path, and the
    * paths read and the (path, contents) pairs written, in order.
    */
  class Disk {
    var files: map<string, string>
    var readLog: seq<string>
    var writeLog: seq<(string, string)>

    constructor (files: map<string, string>)
      ensures this.files == files && readLog == [] && writeLog == []
    {
      this.files := files;
      readLog := [];
      writeLog := [];
    }

    /** `fs.existsSync(path)`. */
    method Exists(path: string) returns (present: bool)
      ensures present <==> path in files
    {
      present := path in files;
    }

    /** `fs.readFileSync(path, 'utf8')` of a file that exists. */
    method ReadFile(path: string) returns (text: string)
      requires path in files
      modifies this`readLog
      ensures text == files[path] && readLog == old(readLog) + [path]
    {
      text := files[path];
      readLog := readLog + [path];
    }

    /** `fs.writeFileSync(path, text, 'utf8')`: creates or overwrites the file. */
    method WriteFile(path: string, text: string)
      modifies this`files, this`writeLog
      ensures files == old(files)[path := text] && writeLog == old(writeLog) + [(path, text)]
    {
      files := files[path := text];
      writeLog := writeLog + [(path, text)];
    }
  }

  /**
    * The whole run. Without the page: exit status 1, nothing read, nothing
    * written. With it: the page is read once and written once, at the same
    * path, with all five substitutions done, and the status is 0.
    */
  method Run(disk: Disk, env: map<string, string>) returns (exitCode: int)
    modifies disk
    ensures IndexPath !in old(disk.files) ==>
      exitCode == 1 && disk.files == old(disk.files) &&
      disk.readLog == old(disk.readLog) && disk.writeLog == old(disk.writeLog)
    ensures IndexPath in old(disk.files) ==>
      var page := Injected(old(disk.files[IndexPath]), env, EnvVarNames);
      exitCode == 0 && disk.files == old(disk.files)[IndexPath := page] &&
      disk.readLog == old(disk.readLog) + [IndexPath] &&
      disk.writeLog == old(disk.writeLog) + [(IndexPath, page)]
  {
    var present := disk.Exists(IndexPath);
    if !present {
      return 1;
    }
    var html := disk.ReadFile(IndexPath);
    html := Substitute(html, env);
    disk.WriteFile(IndexPath, html);
    return 0;
  }
}
