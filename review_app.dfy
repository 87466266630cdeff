/**
  The two helpers of the web front end (app.py): the upload's extension
  check and the pairing of the review's bold numbered headings with the
  text that follows each.

  `re.split` on the heading pattern is not modelled: `ParseReview` takes the
  pieces it returns, which alternate text, heading, text, heading, ...
*/
module ReviewApp {
  import opened Wrappers
  import opened Text
  import opened Dicts

  /** `ALLOWED_EXTENSIONS`. */
  const AllowedExtensions: set<string> := {"pdf"}

  // ---------------------------------------------------------------------------
  // allowed_file

  /** `s.rsplit(".", 1)[1]`: what follows the last dot. */
  function AfterLastDot(s: string): (r: string)
    requires '.' in s
    ensures |r| < |s| && s[|s| - |r| - 1] == '.' && s[|s| - |r|..] == r
    ensures '.' !in r
    decreases |s|
  {
    if s[|s| - 1] == '.' then []
    else
      var init := s[..|s| - 1];
      assert '.' in init by {
        var i :| 0 <= i < |s| && s[i] == '.';
        assert init[i] == '.';
      }
      AfterLastDot(init) + [s[|s| - 1]]
  }

  /** `allowed_file`: the name has a dot, and what follows the last one, lower-cased, is an allowed extension. */
  predicate AllowedFile(filename: string) {
    '.' in filename && Lower(AfterLastDot(filename)) in AllowedExtensions
  }

  lemma LowerDot(s: string, i: int)
    requires 0 <= i < |s|
    ensures Lower(s)[i] == '.' <==> s[i] == '.'
  {
  }

  /** The text after a dot that is followed by `k` characters none of which is a dot. */
  lemma {:induction false} AfterLastDotAt(s: string, k: nat)
    requires k < |s| && s[|s| - k - 1] == '.'
    requires forall j | |s| - k <= j < |s| :: s[j] != '.'
    ensures '.' in s && AfterLastDot(s) == s[|s| - k..]
    decreases k
  {
    assert s[|s| - k - 1] in s;
    if k > 0 {
      var init := s[..|s| - 1];
      assert init[|init| - (k - 1) - 1] == '.';
      AfterLastDotAt(init, k - 1);
      assert init[|init| - (k - 1)..] + [s[|s| - 1]] == s[|s| - k..];
    }
  }

  /**
    The extension check, stated without `rsplit`: a name is accepted exactly
    when its last four characters, lower-cased, are ".pdf".
  */
  lemma AllowedFileIff(filename: string)
    ensures AllowedFile(filename) <==> |filename| >= 4 && Lower(filename[|filename| - 4..]) == ".pdf"
  {
    var n := |filename|;
    if AllowedFile(filename) {
      var r := AfterLastDot(filename);
      assert |Lower(r)| == 3;
      assert filename[n - 4..] == ['.'] + r;
      assert Lower(filename[n - 4..]) == ['.'] + Lower(r);
    }
    if n >= 4 && Lower(filename[n - 4..]) == ".pdf" {
      var tail := filename[n - 4..];
      assert Lower(tail)[0] == '.';
      LowerDot(tail, 0);
      assert filename[n - 4] == '.';
      assert '.' in filename;
      LowerDot(tail, 1);
      LowerDot(tail, 2);
      LowerDot(tail, 3);
      AfterLastDotAt(filename, 3);
      var r := AfterLastDot(filename);
      assert Lower(r) == Lower(tail)[1..];
    }
  }

  /** An upper-case extension is accepted; a bare "pdf" and an extension after ".pdf" are not. */
  lemma AllowedFileExamples()
    ensures AllowedFile("x.PDF")
    ensures !AllowedFile("pdf")
    ensures !AllowedFile("x.pdf.exe")
  {
    AllowedFileIff("x.PDF");
    assert "x.PDF"[1..] == ".PDF";
    assert Lower(".PDF") == ".pdf";
    assert "pdf"[0] != '.' && "pdf"[1] != '.' && "pdf"[2] != '.';
    AllowedFileIff("x.pdf.exe");
    assert "x.pdf.exe"[5..] == ".exe";
    assert Lower(".exe")[1] == 'e';
  }

  // ---------------------------------------------------------------------------
  // parse_review

  /** The (heading, content) pairs the loop visits: each odd piece, stripped, with the next piece stripped or "". */
  function Pairs(parts: seq<string>): (ps: seq<(string, string)>)
    ensures |ps| == |parts| / 2
  {
    seq(|parts| / 2, k requires 0 <= k < |parts| / 2 => PairAt(parts, k))
  }

  /** The pair the loop builds at index `2 * k + 1`. */
  function PairAt(parts: seq<string>, k: nat): (string, string)
    requires 2 * k + 1 < |parts|
  {
    (Strip(parts[2 * k + 1]), if 2 * k + 2 < |parts| then Strip(parts[2 * k + 2]) else "")
  }

  /** Assigning the pairs in turn into a dict, as `sections[title] = content` does. */
  function Assign(ps: seq<(string, string)>): Dict<string, string>
    decreases |ps|
  {
    if ps == [] then [] else Put(Assign(ps[..|ps| - 1]), ps[|ps| - 1].0, ps[|ps| - 1].1)
  }

  /** The content paired with the last occurrence of heading `t`, if it occurs. */
  function LastContent(ps: seq<(string, string)>, t: string): (r: Option<string>)
    ensures r.Some? <==> exists k | 0 <= k < |ps| :: ps[k].0 == t
    decreases |ps|
  {
    if ps == [] then None
    else if ps[|ps| - 1].0 == t then Some(ps[|ps| - 1].1)
    else
      var r := LastContent(ps[..|ps| - 1], t);
      assert forall k | 0 <= k < |ps| - 1 :: ps[..|ps| - 1][k] == ps[k];
      r
  }

  /** The sections `parse_review` returns for the pieces of the split. */
  function Sections(parts: seq<string>): Dict<string, string> {
    Assign(Pairs(parts))
  }

  lemma AssignStep(parts: seq<string>, k: nat)
    requires 2 * k + 1 < |parts|
    ensures Assign(Pairs(parts)[..k + 1]) == Put(Assign(Pairs(parts)[..k]), PairAt(parts, k).0, PairAt(parts, k).1)
  {
    var ps := Pairs(parts);
    assert ps[..k + 1][..k] == ps[..k];
    assert ps[..k + 1][k] == PairAt(parts, k);
  }

  /** One turn of the loop: `sections[title] = content` for the heading at index `2 * k + 1`. */
  method AddSection(parts: seq<string>, k: nat, sections: Dict<string, string>) returns (next: Dict<string, string>)
    requires 2 * k + 1 < |parts|
    requires sections == Assign(Pairs(parts)[..k])
    ensures next == Assign(Pairs(parts)[..k + 1])
  {
    var (title, content) := PairAt(parts, k);
    AssignStep(parts, k);
    next := Put(sections, title, content);
  }

  /** `parse_review`: the loop over the odd indices of the split. */
  method ParseReview(parts: seq<string>) returns (sections: Dict<string, string>)
    ensures sections == Sections(parts)
  {
    sections := [];
    var k := 0;
    while 2 * k + 1 < |parts|
      invariant 0 <= k <= |parts| / 2
      invariant sections == Assign(Pairs(parts)[..k])
      decreases |parts| - 2 * k
    {
      sections := AddSection(parts, k, sections);
      k := k + 1;
    }
    assert Pairs(parts)[..k] == Pairs(parts);
  }

  /**
    Looking a heading up in the sections finds the content of its LAST
    occurrence, since a later assignment overwrites; a heading that never
    occurs is absent.
  */
  lemma {:induction false} AssignGet(ps: seq<(string, string)>, t: string)
    ensures Get(Assign(ps), t) == LastContent(ps, t)
    decreases |ps|
  {
    if ps != [] {
      var init := ps[..|ps| - 1];
      AssignGet(init, t);
      PutGet(Assign(init), ps[|ps| - 1].0, ps[|ps| - 1].1, t);
    }
  }

  /** Each heading appears once among the keys, as in any Python dict. */
  lemma {:induction false} AssignDistinct(ps: seq<(string, string)>)
    ensures DistinctKeys(Assign(ps))
    decreases |ps|
  {
    if ps != [] {
      AssignDistinct(ps[..|ps| - 1]);
      PutDistinct(Assign(ps[..|ps| - 1]), ps[|ps| - 1].0, ps[|ps| - 1].1);
    }
  }

  /**
    A heading has a section exactly when some odd piece strips to it, and
    the section holds what follows the last such piece, stripped, or "" when
    that piece ends the split.
  */
  lemma SectionsLookup(parts: seq<string>, t: string)
    ensures Get(Sections(parts), t).Some? <==> exists k | 0 <= k < |parts| / 2 :: PairAt(parts, k).0 == t
    ensures Get(Sections(parts), t) == LastContent(Pairs(parts), t)
    ensures DistinctKeys(Sections(parts))
  {
    var ps := Pairs(parts);
    AssignGet(ps, t);
    AssignDistinct(ps);
    assert forall k | 0 <= k < |ps| :: ps[k] == PairAt(parts, k);
  }

  /** A heading that ends the split gets "" as its content. */
  lemma TrailingHeading(parts: seq<string>, k: nat)
    requires |parts| == 2 * k + 2
    ensures Get(Sections(parts), Strip(parts[2 * k + 1])) == Some("")
  {
    var ps := Pairs(parts);
    assert |ps| == k + 1;
    assert ps[k] == PairAt(parts, k) == (Strip(parts[2 * k + 1]), "");
    LastAssigned(ps);
  }

  /** The last pair assigned is the one a lookup of its heading finds. */
  lemma LastAssigned(ps: seq<(string, string)>)
    requires ps != []
    ensures Get(Assign(ps), ps[|ps| - 1].0) == Some(ps[|ps| - 1].1)
  {
    AssignGet(ps, ps[|ps| - 1].0);
  }

  /** Without a bold numbered heading the split is one piece, and there are no sections. */
  lemma NoHeadings(parts: seq<string>)
    requires |parts| <= 1
    ensures Sections(parts) == []
  {
  }
}
