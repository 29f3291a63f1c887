/** Derivation of the object-store key from a download URL:
    `file_name = url.split('/')[-1]`. */
module Keys {

  const Separator: char := '/'

  /** Joins the pieces back together with `sep` between neighbours: the
      inverse of `Split`. */
  function Join(parts: seq<string>, sep: char): string
    requires |parts| >= 1
    decreases |parts|
  {
    if |parts| == 1 then parts[0] else parts[0] + [sep] + Join(parts[1..], sep)
  }

  /** Python's `s.split(sep)` for a one-character separator: the pieces of
      `s` between the separators, always at least one (an empty string
      splits into `[""]`, and neighbouring separators give an empty piece). */
  function Split(s: string, sep: char): (parts: seq<string>)
    ensures |parts| >= 1
    ensures forall j :: 0 <= j < |parts| ==> sep !in parts[j]
    ensures Join(parts, sep) == s
    decreases |s|
  {
    if |s| == 0 then [""]
    else if s[0] == sep then [""] + Split(s[1..], sep)
    else
      var rest := Split(s[1..], sep);
      JoinConsFirst(s[0], rest, sep);
      [[s[0]] + rest[0]] + rest[1..]
  }

  /** Prepending a character to the first piece prepends it to the join. */
  lemma {:induction false} JoinConsFirst(c: char, parts: seq<string>, sep: char)
    requires |parts| >= 1
    ensures Join([[c] + parts[0]] + parts[1..], sep) == [c] + Join(parts, sep)
  {
    var p := [[c] + parts[0]] + parts[1..];
    assert p[1..] == parts[1..];
  }

  /** The join of two or more pieces ends with a separator and the last piece. */
  lemma {:induction false} JoinLast(parts: seq<string>, sep: char)
    requires |parts| >= 2
    ensures Join(parts, sep) == Join(parts[..|parts| - 1], sep) + [sep] + parts[|parts| - 1]
    decreases |parts|
  {
    if |parts| > 2 {
      JoinLast(parts[1..], sep);
      assert parts[1..][..|parts| - 2] == parts[..|parts| - 1][1..];
      assert parts[..|parts| - 1][0] == parts[0];
    } else {
      assert parts[..1] == [parts[0]];
    }
  }

  /** A string without the separator is a single piece. */
  lemma {:induction false} SplitPlain(w: string, sep: char)
    requires sep !in w
    ensures Split(w, sep) == [w]
    decreases |w|
  {
    if |w| > 0 {
      SplitPlain(w[1..], sep);
      assert [w[0]] + w[1..] == w;
    }
  }

  /** A piece followed by a separator splits off as the first piece. */
  lemma {:induction false} SplitSeparated(w: string, r: string, sep: char)
    requires sep !in w
    ensures Split(w + [sep] + r, sep) == [w] + Split(r, sep)
    decreases |w|
  {
    var s := w + [sep] + r;
    if |w| == 0 {
      assert s[1..] == r;
    } else {
      assert s[0] == w[0];
      assert s[1..] == w[1..] + [sep] + r;
      SplitSeparated(w[1..], r, sep);
      assert [w[0]] + w[1..] == w;
    }
  }

  /** Splitting undoes joining pieces that hold no separator, so `Split`
      and `Join` are inverse to each other. */
  lemma {:induction false} SplitJoin(parts: seq<string>, sep: char)
    requires |parts| >= 1
    requires forall j :: 0 <= j < |parts| ==> sep !in parts[j]
    ensures Split(Join(parts, sep), sep) == parts
    decreases |parts|
  {
    if |parts| == 1 {
      SplitPlain(parts[0], sep);
    } else {
      SplitJoin(parts[1..], sep);
      SplitSeparated(parts[0], Join(parts[1..], sep), sep);
      assert [parts[0]] + parts[1..] == parts;
    }
  }

  /** The storage key of a URL: the characters after its last `/`, or the
      whole URL when it has none; so it holds no `/` and is no longer than
      the URL. It is written from the end of the URL so that it is
      recursive; `FileNameIsLastPiece` shows that it is the last piece of
      `url.split('/')`. */
  function FileName(url: string): (key: string)
    ensures Separator !in key
    ensures |key| <= |url|
    decreases |url|
  {
    if |url| == 0 || url[|url| - 1] == Separator then ""
    else FileName(url[..|url| - 1]) + [url[|url| - 1]]
  }

  /** The URL ends with its key, and what comes before the key is either
      nothing or ends with `/`. */
  lemma {:induction false} FileNameFacts(url: string)
    ensures url[|url| - |FileName(url)|..] == FileName(url)
    ensures |FileName(url)| == |url| || url[|url| - |FileName(url)| - 1] == Separator
    decreases |url|
  {
    if |url| > 0 && url[|url| - 1] != Separator {
      var init := url[..|url| - 1];
      FileNameFacts(init);
      var k := FileName(init);
      var c := url[|url| - 1];
      var n := |k|;
      assert url == init + [c];
      assert FileName(url) == k + [c];
      assert url[|url| - (n + 1)..] == init[|init| - n..] + [c];
      assert n == |init| || url[|url| - (n + 1) - 1] == init[|init| - n - 1];
    }
  }

  /** The three properties of `FileName` and `FileNameFacts` determine the
      key: it is the longest suffix of the URL without a `/`. */
  lemma {:induction false} FileNameUnique(url: string, key: string)
    requires Separator !in key
    requires |key| <= |url| && url[|url| - |key|..] == key
    requires |key| == |url| || url[|url| - |key| - 1] == Separator
    ensures FileName(url) == key
    decreases |url|
  {
    if |key| > 0 {
      var init := url[..|url| - 1];
      assert url[|url| - 1] == key[|key| - 1];
      assert init[|init| - (|key| - 1)..] == key[..|key| - 1];
      FileNameUnique(init, key[..|key| - 1]);
    }
  }

  /** `FileName` is Python's `url.split('/')[-1]`. */
  lemma FileNameIsLastPiece(url: string)
    ensures FileName(url) == Split(url, Separator)[|Split(url, Separator)| - 1]
  {
    var parts := Split(url, Separator);
    var last := parts[|parts| - 1];
    if |parts| >= 2 {
      JoinLast(parts, Separator);
    }
    FileNameUnique(url, last);
  }

  /** A URL without any `/` is its own key. */
  lemma NoSeparatorKeepsUrl(url: string)
    requires Separator !in url
    ensures FileName(url) == url
  {
    FileNameUnique(url, url);
  }

  /** A URL that ends in `/` yields the empty key. */
  lemma TrailingSeparatorGivesEmptyKey(url: string)
    requires |url| > 0 && url[|url| - 1] == Separator
    ensures FileName(url) == ""
  {
  }
}
