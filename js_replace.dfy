/**
 * JavaScript `String.prototype.replace` with a string as the search value:
 * only the first occurrence is replaced, and the replacement text is
 * expanded by GetSubstitution (section 22.1.3.19.1 of ECMA-262), where
 * `$$`, `$&`, `` $` `` and `$'` are special. The extension builds its file
 * name with two such calls, first `{arxiv_id}` and then `{title}`.
 */
module JsReplace {
  import opened Wrappers
  import opened Text

  /**
   * GetSubstitution for a string search (no capture groups): `$$` is `$`,
   * `$&` the matched text, `` $` `` the text before the match, `$'` the
   * text after it; every other `$` (including `$1`..`$99` and `$<`, which
   * refer to captures that do not exist) stands for itself.
   */
  function Expand(repl: string, matched: string, before: string, after: string): string
    decreases |repl|
  {
    if repl == [] then []
    else if repl[0] == '$' && |repl| >= 2 && repl[1] in "$&`'" then
      var piece := match repl[1]
        case '$' => "$"
        case '&' => matched
        case '`' => before
        case _ => after;
      piece + Expand(repl[2..], matched, before, after)
    else [repl[0]] + Expand(repl[1..], matched, before, after)
  }

  /** A replacement text without `$` is inserted as it is. */
  lemma {:induction false} ExpandPlain(repl: string, matched: string, before: string, after: string)
    requires '$' !in repl
    ensures Expand(repl, matched, before, after) == repl
    decreases |repl|
  {
    if repl != [] {
      assert repl == [repl[0]] + repl[1..];
      ExpandPlain(repl[1..], matched, before, after);
    }
  }

  /** Doubles every `$`: the text to pass as replacement so that `t` itself is inserted. */
  function Escape(t: string): (r: string)
    ensures |r| >= |t|
    decreases |t|
  {
    if t == [] then [] else (if t[0] == '$' then "$$" else [t[0]]) + Escape(t[1..])
  }

  /** Expanding an escaped text gives the text back, whatever the match and its context. */
  lemma {:induction false} ExpandEscape(t: string, matched: string, before: string, after: string)
    ensures Expand(Escape(t), matched, before, after) == t
    decreases |t|
  {
    if t != [] {
      var e := Escape(t);
      var rest := Escape(t[1..]);
      ExpandEscape(t[1..], matched, before, after);
      if t[0] == '$' {
        assert e == "$$" + rest;
        assert e[2..] == rest;
      } else {
        assert e == [t[0]] + rest;
        assert e[1..] == rest;
      }
      assert t == [t[0]] + t[1..];
    }
  }

  /** `s.replace(pat, repl)` for a string `pat`. */
  function ReplaceFirst(s: string, pat: string, repl: string): string {
    match IndexOf(s, pat, 0)
    case None => s
    case Some(i) =>
      s[..i] + Expand(repl, pat, s[..i], s[i + |pat|..]) + s[i + |pat|..]
  }

  /** Without an occurrence of the search text, the string is returned unchanged. */
  lemma ReplaceFirstAbsent(s: string, pat: string, repl: string)
    requires !Contains(s, pat)
    ensures ReplaceFirst(s, pat, repl) == s
  {
  }

  /**
   * Only the first occurrence is replaced: when `pat` does not start
   * anywhere before the end of `a`, `a + pat + b` becomes `a + repl + b`
   * for a `$`-free `repl`, and any later occurrence inside `b` is kept.
   */
  lemma ReplaceFirstAt(a: string, pat: string, b: string, repl: string)
    requires forall i :: 0 <= i < |a| ==> !OccursAt(a + pat + b, pat, i)
    requires '$' !in repl
    ensures ReplaceFirst(a + pat + b, pat, repl) == a + repl + b
  {
    var s := a + pat + b;
    assert s[|a|..|a| + |pat|] == pat;
    IndexOfFirst(s, pat, |a|);
    assert s[..|a|] == a;
    assert s[|a| + |pat|..] == b;
    ExpandPlain(repl, pat, a, b);
  }

  /** The file name before `.pdf`: `{arxiv_id}` and then `{title}` replaced, each at its first occurrence. */
  function FileName(pattern: string, id: string, title: string): string {
    ReplaceFirst(ReplaceFirst(pattern, "{arxiv_id}", id), "{title}", title)
  }

  /** `"{arxiv_id} - {title}"` gives `<id> - <title>` when neither value holds a `$` and the id holds no `{`. */
  lemma FileNameDefault(id: string, title: string)
    requires '$' !in id && '$' !in title && '{' !in id
    ensures FileName("{arxiv_id} - {title}", id, title) == id + " - " + title
  {
    DefaultIdStep(id);
    DefaultTitleStep(id, title);
  }

  /** The first replacement on the default pattern puts the id in front. */
  lemma DefaultIdStep(id: string)
    requires '$' !in id
    ensures ReplaceFirst("{arxiv_id} - {title}", "{arxiv_id}", id) == id + " - {title}"
  {
    ReplaceFirstAt("", "{arxiv_id}", " - {title}", id);
    assert "" + "{arxiv_id}" + " - {title}" == "{arxiv_id} - {title}";
    assert "" + id + " - {title}" == id + " - {title}";
  }

  /** The second replacement fills in the title after a `{`-free id. */
  lemma DefaultTitleStep(id: string, title: string)
    requires '$' !in title && '{' !in id
    ensures ReplaceFirst(id + " - {title}", "{title}", title) == id + " - " + title
  {
    var a := id + " - ";
    var s := a + "{title}" + "";
    assert s == id + " - {title}";
    forall i | 0 <= i < |a|
      ensures !OccursAt(s, "{title}", i)
    {
      assert s[i] == a[i];
      if i < |id| {
        assert a[i] == id[i];
      }
      NotOccursAt(s, "{title}", i, 0);
    }
    ReplaceFirstAt(a, "{title}", "", title);
    assert a + title + "" == id + " - " + title;
  }

  /** `"{title} {title}"` holds no `{arxiv_id}`. */
  lemma RepeatedTitleHasNoId()
    ensures !Contains("{title} {title}", "{arxiv_id}")
  {
    var s := "{title} {title}";
    forall i: nat
      ensures !OccursAt(s, "{arxiv_id}", i)
    {
      if i < 6 {
        if s[i] == '{' {
          NotOccursAt(s, "{arxiv_id}", i, 1);
        } else {
          NotOccursAt(s, "{arxiv_id}", i, 0);
        }
      }
    }
  }

  /** A repeated placeholder is substituted once: `"{title} {title}"` keeps its second `{title}`. */
  lemma FileNameFirstOnly(id: string, title: string)
    requires '$' !in title
    ensures FileName("{title} {title}", id, title) == title + " {title}"
  {
    RepeatedTitleHasNoId();
    ReplaceFirstAbsent("{title} {title}", "{arxiv_id}", id);
    RepeatedTitleStep(title);
  }

  /** Replacing `{title}` in `"{title} {title}"` replaces the first one only. */
  lemma RepeatedTitleStep(title: string)
    requires '$' !in title
    ensures ReplaceFirst("{title} {title}", "{title}", title) == title + " {title}"
  {
    assert "" + "{title}" + " {title}" == "{title} {title}";
    ReplaceFirstAt("", "{title}", " {title}", title);
    assert "" + title + " {title}" == title + " {title}";
  }

  /** A `$&` in the title brings the placeholder itself back into the name. */
  lemma FileNameDollarAmp(id: string)
    ensures FileName("{title}", id, "$&") == "{title}"
  {
    assert !OccursAt("{title}", "{arxiv_id}", 0);
    ReplaceFirstAbsent("{title}", "{arxiv_id}", id);
    IndexOfFirst("{title}", "{title}", 0);
    assert "{title}"[..0] == "" && "{title}"[7..] == "";
  }
}
