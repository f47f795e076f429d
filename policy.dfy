/**
 * The pure rules the service and both handlers share: how an object key is
 * built, and how much of a file the summariser is shown.
 */
module Policy {
  import opened Types

  /** The most bytes of a file handed to the summariser. */
  const MaxAnalysisContentLen: nat := 100_000

  /**
   * The object key of an upload: `date/token_filename`, where `date` is the
   * upload day as `YYYY/MM/DD` and `token` a fresh random UUID.
   */
  function ObjectKey(date: string, token: string, filename: string): (key: string)
    ensures |key| == |date| + |token| + |filename| + 2
    ensures key[..|date|] == date && key[|date|] == '/'
    ensures key[|key| - |filename| - 1] == '_' && key[|key| - |filename|..] == filename
  {
    date + "/" + token + "_" + filename
  }

  /** The text after the first `_` of a key (empty when there is none). */
  function FilenameOf(key: string): string {
    if key == [] then []
    else if key[0] == '_' then key[1..]
    else FilenameOf(key[1..])
  }

  /** The text before the first `_` of a key (all of it when there is none). */
  function StampOf(key: string): string {
    if key == [] then []
    else if key[0] == '_' then []
    else [key[0]] + StampOf(key[1..])
  }

  /** Text with no `_` in front of a key part is skipped by both projections. */
  lemma {:induction false} SkipUnderscoreFree(p: string, rest: string)
    requires '_' !in p
    ensures FilenameOf(p + rest) == FilenameOf(rest)
    ensures StampOf(p + rest) == p + StampOf(rest)
  {
    if p != [] {
      assert p[0] in p && (p + rest)[0] == p[0];
      assert (p + rest)[1..] == p[1..] + rest;
      assert p == [p[0]] + p[1..];
      SkipUnderscoreFree(p[1..], rest);
    } else {
      assert p + rest == rest;
    }
  }

  /**
   * When neither the date nor the token holds a `_` (true of the `YYYY/MM/DD`
   * layout and of UUID text), a key splits back into its `date/token` stamp
   * and the original filename, whatever the filename holds.
   */
  lemma ObjectKeySplits(date: string, token: string, filename: string)
    requires '_' !in date && '_' !in token
    ensures FilenameOf(ObjectKey(date, token, filename)) == filename
    ensures StampOf(ObjectKey(date, token, filename)) == date + "/" + token
  {
    var stamp := date + "/" + token;
    assert '_' !in stamp by {
      forall i | 0 <= i < |stamp| ensures stamp[i] != '_' {
        if i < |date| { assert stamp[i] == date[i]; }
        else if i > |date| { assert stamp[i] == token[i - |date| - 1]; }
      }
    }
    assert ObjectKey(date, token, filename) == stamp + ("_" + filename);
    SkipUnderscoreFree(stamp, "_" + filename);
  }

  /**
   * Keys determine the upload they were made for: two uploads on days
   * written with the same width share a key only when they share the day,
   * the token and the filename. Distinct random tokens therefore give
   * distinct keys, even for the same filename, so no upload overwrites
   * another's object.
   */
  lemma ObjectKeyInjective(date1: string, token1: string, name1: string,
                           date2: string, token2: string, name2: string)
    requires '_' !in date1 && '_' !in token1 && '_' !in date2 && '_' !in token2
    requires |date1| == |date2|
    requires ObjectKey(date1, token1, name1) == ObjectKey(date2, token2, name2)
    ensures date1 == date2 && token1 == token2 && name1 == name2
  {
    ObjectKeySplits(date1, token1, name1);
    ObjectKeySplits(date2, token2, name2);
    var s1, s2 := date1 + "/" + token1, date2 + "/" + token2;
    assert s1 == s2;
    assert date1 == s1[..|date1|] && date2 == s2[..|date2|];
    assert token1 == s1[|date1| + 1..] && token2 == s2[|date2| + 1..];
  }

  /**
   * The bytes handed to the summariser: the first `MaxAnalysisContentLen`
   * bytes of the content, or all of it when it is shorter. The cut is by
   * bytes, not by characters.
   */
  function AnalysisInput(content: Bytes): (input: Bytes)
    ensures |input| <= MaxAnalysisContentLen && |input| <= |content|
    ensures input == content[..|input|]
    ensures |input| == MaxAnalysisContentLen || input == content
  {
    if |content| > MaxAnalysisContentLen then content[..MaxAnalysisContentLen] else content
  }
}
