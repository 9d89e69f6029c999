/**
 * The text path of Web2Text: the texts of the matched tags joined with a blank
 * line, and the replacement of every character Latin-1 cannot encode by '?'
 * before the text is handed to the PDF writer.
 */
module Text {

  import opened Common

  // ---------------------------------------------------------------------------
  // Joining tag texts

  /** The separator of `"\n\n".join(...)`. */
  const Separator: string := "\n\n"

  /** Sum of the lengths of the parts. */
  function TotalLength(parts: seq<string>): nat {
    if parts == [] then 0 else |parts[0]| + TotalLength(parts[1..])
  }

  /** Python's `"\n\n".join(parts)`. */
  function Join(parts: seq<string>): (r: string)
    ensures |r| == TotalLength(parts) + (if parts == [] then 0 else |Separator| * (|parts| - 1))
    ensures |parts| == 1 ==> r == parts[0]
  {
    if parts == [] then ""
    else if |parts| == 1 then parts[0]
    else parts[0] + Separator + Join(parts[1..])
  }

  /** Python's `s.split("\n\n")`: the pieces between non-overlapping separators, scanned from the left. */
  function Split(s: string): (r: seq<string>)
    ensures |r| >= 1
  {
    if |s| >= 2 && s[0] == '\n' && s[1] == '\n' then [""] + Split(s[2..])
    else if s == [] then [""]
    else
      var t := Split(s[1..]);
      [[s[0]] + t[0]] + t[1..]
  }

  predicate NoNewline(s: string) {
    forall i :: 0 <= i < |s| ==> s[i] != '\n'
  }

  lemma {:induction false} SplitPlain(p: string, rest: string)
    requires NoNewline(p)
    ensures Split(p) == [p]
    ensures Split(p + Separator + rest) == [p] + Split(rest)
  {
    if p == [] {
      assert p + Separator + rest == "\n\n" + rest;
      assert ("\n\n" + rest)[2..] == rest;
    } else {
      assert NoNewline(p[1..]);
      SplitPlain(p[1..], rest);
      var s := p + Separator + rest;
      assert s[1..] == p[1..] + Separator + rest;
      assert [p[0]] + p[1..] == p;
    }
  }

  /** Splitting the joined text on the separator gives back the tag texts, when none holds a newline. */
  lemma {:induction false} SplitJoin(parts: seq<string>)
    requires parts != []
    requires forall i :: 0 <= i < |parts| ==> NoNewline(parts[i])
    ensures Split(Join(parts)) == parts
  {
    var first := parts[0];
    assert NoNewline(first);
    if |parts| == 1 {
      SplitPlain(first, "");
    } else {
      var rest := parts[1..];
      assert forall i :: 0 <= i < |rest| ==> NoNewline(rest[i]) by {
        forall i | 0 <= i < |rest| ensures NoNewline(rest[i]) {
          assert rest[i] == parts[i + 1];
        }
      }
      SplitJoin(rest);
      assert Join(parts) == first + Separator + Join(rest);
      SplitPlain(first, Join(rest));
      assert parts == [first] + rest;
    }
  }

  /** Appending one more tag adds one separator and that tag's text at the end. */
  lemma {:induction false} JoinSnoc(parts: seq<string>, last: string)
    requires parts != []
    ensures Join(parts + [last]) == Join(parts) + Separator + last
  {
    if |parts| == 1 {
      assert parts + [last] == [parts[0], last];
      assert [parts[0], last][1..] == [last];
    } else {
      assert (parts + [last])[1..] == parts[1..] + [last];
      JoinSnoc(parts[1..], last);
    }
  }

  // ---------------------------------------------------------------------------
  // Latin-1 replacement

  /** The character Python's 'replace' error handler writes for an unencodable character. */
  const Replacement: char := '?'

  predicate IsLatin1(c: char) {
    c as int <= 255
  }

  predicate AllLatin1(s: string) {
    forall i :: 0 <= i < |s| ==> IsLatin1(s[i])
  }

  /** `text.encode('latin-1', 'replace').decode('latin-1')`. */
  function Latin1Replace(s: string): (r: string)
    ensures |r| == |s|
    ensures forall i :: 0 <= i < |s| && IsLatin1(s[i]) ==> r[i] == s[i]
    ensures forall i :: 0 <= i < |s| && !IsLatin1(s[i]) ==> r[i] == Replacement
    ensures AllLatin1(r)
  {
    if s == [] then []
    else [if IsLatin1(s[0]) then s[0] else Replacement] + Latin1Replace(s[1..])
  }

  /** The replacement is idempotent. */
  lemma Latin1ReplaceIdempotent(s: string)
    ensures Latin1Replace(Latin1Replace(s)) == Latin1Replace(s)
  {
    Latin1Fixed(Latin1Replace(s));
  }

  /** Exactly the strings that Latin-1 can encode pass through unchanged. */
  lemma Latin1Fixed(s: string)
    ensures Latin1Replace(s) == s <==> AllLatin1(s)
  {
    if AllLatin1(s) {
      assert forall i :: 0 <= i < |s| ==> Latin1Replace(s)[i] == s[i];
    }
  }

  /** The tag texts, each with the Latin-1 replacement applied. */
  function ReplaceEach(parts: seq<string>): (r: seq<string>)
    ensures |r| == |parts|
    ensures forall i :: 0 <= i < |parts| ==> r[i] == Latin1Replace(parts[i])
  {
    if parts == [] then [] else [Latin1Replace(parts[0])] + ReplaceEach(parts[1..])
  }

  /** Replacing after joining is joining the replaced texts: the separator is plain Latin-1. */
  lemma {:induction false} Latin1ReplaceJoin(parts: seq<string>)
    ensures Latin1Replace(Join(parts)) == Join(ReplaceEach(parts))
  {
    if |parts| > 1 {
      var first, rest := parts[0], parts[1..];
      var mapped := ReplaceEach(parts);
      assert mapped == [Latin1Replace(first)] + ReplaceEach(rest);
      var j := Join(rest);
      calc {
        Latin1Replace(Join(parts));
        { assert Join(parts) == first + (Separator + j); }
        Latin1Replace(first + (Separator + j));
        { Latin1ReplaceConcat(first, Separator + j); }
        Latin1Replace(first) + Latin1Replace(Separator + j);
        { Latin1ReplaceConcat(Separator, j); SeparatorIsLatin1(); }
        Latin1Replace(first) + (Separator + Latin1Replace(j));
        { Latin1ReplaceJoin(rest); }
        Latin1Replace(first) + (Separator + Join(ReplaceEach(rest)));
        { ConcatAssoc(Latin1Replace(first), Separator, Join(ReplaceEach(rest))); }
        Latin1Replace(first) + Separator + Join(ReplaceEach(rest));
        { assert mapped[0] == Latin1Replace(first) && mapped[1..] == ReplaceEach(rest); }
        Join(mapped);
      }
    }
  }

  lemma SeparatorIsLatin1()
    ensures Latin1Replace(Separator) == Separator
  {
    assert AllLatin1(Separator);
    Latin1Fixed(Separator);
  }

  lemma Latin1ReplaceConcat(a: string, b: string)
    ensures Latin1Replace(a + b) == Latin1Replace(a) + Latin1Replace(b)
  {
    var l, r := Latin1Replace(a + b), Latin1Replace(a) + Latin1Replace(b);
    assert forall i :: 0 <= i < |a| ==> (a + b)[i] == a[i];
    assert forall i :: |a| <= i < |a| + |b| ==> (a + b)[i] == b[i - |a|];
    assert |l| == |r|;
    forall i | 0 <= i < |l| ensures l[i] == r[i] {
      if i < |a| { } else { assert (a + b)[i] == b[i - |a|]; }
    }
  }

  // ---------------------------------------------------------------------------
  // Web2Text.save_text_to_temp_pdf

  /** A text PDF on disk: where it was written and the text handed to the writer. */
  datatype TextPdf = TextPdf(path: Path, body: string)

  /**
   * `save_text_to_temp_pdf(text)`. `written` is what the PDF writer and the
   * temporary file give: the new file's name, or `None` when they raised, in
   * which case the method catches the exception and returns `None`.
   */
  function SaveTextToTempPdf(text: string, written: Option<Path>): (r: Option<TextPdf>)
    ensures r.Some? <==> written.Some?
    ensures r.Some? ==> r.value.path == written.value
    ensures r.Some? ==> r.value.body == Latin1Replace(text)
    ensures r.Some? ==> |r.value.body| == |text| && AllLatin1(r.value.body)
    ensures r.Some? && AllLatin1(text) ==> r.value.body == text
  {
    Latin1Fixed(text);
    if written.Some? then Some(TextPdf(written.value, Latin1Replace(text))) else None
  }
}
