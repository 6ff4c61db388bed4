/** `clean_text` (functions.py): drop HTML tags, collapse whitespace, drop characters
    outside `[\w\s.,!?-]`, strip. */
module CleanText {

  import opened Wrappers
  import opened Text
  import opened Words

  /** Where the tag `<[^>]+>` that starts at `i` ends, exclusive: a `<`, then at least
      one character up to the next `>`. */
  function TagEnd(s: string, i: nat): (r: Option<nat>)
    requires i < |s|
    ensures r.Some? ==> i + 3 <= r.value <= |s|
  {
    if s[i] != '<' then None
    else match FindFrom(s, '>', i + 1)
      case Some(j) => if j > i + 1 then Some(j + 1) else None
      case None => None
  }

  /** `re.sub(r'<[^>]+>', '', s[i:])`: the scan copies characters and skips tags. */
  function RemoveTagsFrom(s: string, i: nat): string
    requires i <= |s|
    decreases |s| - i
  {
    if i == |s| then []
    else match TagEnd(s, i)
      case Some(j) => RemoveTagsFrom(s, j)
      case None => [s[i]] + RemoveTagsFrom(s, i + 1)
  }

  function RemoveTags(s: string): string {
    RemoveTagsFrom(s, 0)
  }

  /** No tag starts anywhere: every `<` is directly followed by `>`, or no `>` follows
      it at all. */
  predicate TagFree(s: string) {
    forall i :: 0 <= i < |s| && s[i] == '<' ==> NoCloseAfter(s, i + 1) || s[i + 1] == '>'
  }

  /** No `>` from `i` on. */
  predicate NoCloseAfter(s: string, i: nat) {
    forall j :: i <= j < |s| ==> s[j] != '>'
  }

  /** A tag-free string has no tag at any position. */
  lemma TagFreeNoTag(s: string, i: nat)
    requires TagFree(s) && i < |s|
    ensures TagEnd(s, i).None?
  {
  }

  /** With no `>` left, none is produced. */
  lemma {:induction false} RemoveTagsNoClose(s: string, i: nat)
    requires i <= |s| && NoCloseAfter(s, i)
    ensures forall k :: 0 <= k < |RemoveTagsFrom(s, i)| ==> RemoveTagsFrom(s, i)[k] != '>'
    decreases |s| - i
  {
    if i < |s| {
      assert TagEnd(s, i).None?;
      RemoveTagsNoClose(s, i + 1);
    }
  }

  /** What the scan leaves holds no tag. */
  lemma {:induction false} RemoveTagsTagFree(s: string, i: nat)
    requires i <= |s|
    ensures TagFree(RemoveTagsFrom(s, i))
    decreases |s| - i
  {
    if i < |s| {
      match TagEnd(s, i)
      case Some(j) => RemoveTagsTagFree(s, j);
      case None =>
        var rest := RemoveTagsFrom(s, i + 1);
        var out := [s[i]] + rest;
        RemoveTagsTagFree(s, i + 1);
        assert forall k :: 0 < k < |out| ==> out[k] == rest[k - 1];
        if s[i] == '<' {
          if FindFrom(s, '>', i + 1).None? {
            RemoveTagsNoClose(s, i + 1);
          } else {
            assert s[i + 1] == '>';
            assert TagEnd(s, i + 1).None?;
            assert rest[0] == '>';
          }
        }
    }
  }

  /** A tag-free string comes through unchanged. */
  lemma {:induction false} RemoveTagsOfTagFree(s: string, i: nat)
    requires i <= |s| && TagFree(s)
    ensures RemoveTagsFrom(s, i) == s[i..]
    decreases |s| - i
  {
    if i < |s| {
      TagFreeNoTag(s, i);
      RemoveTagsOfTagFree(s, i + 1);
      assert s[i..] == [s[i]] + s[i + 1..];
    }
  }

  /** Tag removal changes a string exactly when it holds a tag, and is idempotent. */
  lemma RemoveTagsSpec(s: string)
    ensures RemoveTags(s) == s <==> TagFree(s)
    ensures RemoveTags(RemoveTags(s)) == RemoveTags(s)
  {
    RemoveTagsTagFree(s, 0);
    RemoveTagsOfTagFree(RemoveTags(s), 0);
    if TagFree(s) {
      RemoveTagsOfTagFree(s, 0);
    }
  }

  /** `\w`: letters, digits and the underscore. */
  predicate IsWordChar(c: char) {
    IsAsciiLetter(c) || IsDigit(c) || c == '_'
  }

  /** The characters `[\w\s.,!?-]` keeps. */
  predicate Allowed(c: char) {
    IsWordChar(c) || IsSpace(c) || c == '.' || c == ',' || c == '!' || c == '?' || c == '-'
  }

  /** `re.sub(r'[^\w\s.,!?-]', '', s)`. */
  function KeepAllowed(s: string): string {
    if s == [] then []
    else (if Allowed(s[0]) then [s[0]] else []) + KeepAllowed(s[1..])
  }

  /** Only allowed characters survive, in order, and a string of allowed characters
      survives whole; any property of every input character holds of every output
      character. */
  lemma {:induction false} KeepAllowedSpec(s: string, P: char -> bool)
    requires forall i :: 0 <= i < |s| ==> P(s[i])
    ensures forall i :: 0 <= i < |KeepAllowed(s)| ==> Allowed(KeepAllowed(s)[i]) && P(KeepAllowed(s)[i])
    ensures (forall i :: 0 <= i < |s| ==> Allowed(s[i])) ==> KeepAllowed(s) == s
  {
    if s != [] {
      KeepAllowedSpec(s[1..], P);
      assert s == [s[0]] + s[1..];
    }
  }

  /** `clean_text(text)` as written: the whitespace is collapsed before characters are
      removed, so a removed character between two spaces leaves both. */
  function CleanText(text: string): string {
    if text == [] then []
    else Strip(KeepAllowed(Join(" ", Split(RemoveTags(text)))))
  }

  /** The cleaned text has only allowed characters, its only whitespace is the plain
      space, and it has none at either end. */
  lemma CleanTextSpec(text: string)
    ensures forall i :: 0 <= i < |CleanText(text)| ==>
      Allowed(CleanText(text)[i]) && (IsSpace(CleanText(text)[i]) ==> CleanText(text)[i] == ' ')
    ensures CleanText(text) == [] ||
      (!IsSpace(CleanText(text)[0]) && !IsSpace(CleanText(text)[|CleanText(text)| - 1]))
  {
    if text != [] {
      var plain := (c: char) => IsSpace(c) ==> c == ' ';
      var ws := Split(RemoveTags(text));
      SplitSpec(RemoveTags(text), (c: char) => true);
      JoinSpec(ws, plain);
      KeepAllowedSpec(Join(" ", ws), plain);
      var kept := KeepAllowed(Join(" ", ws));
      StripKeeps(kept, (c: char) => Allowed(c) && plain(c));
      StripSpec(kept);
    }
  }

  /** `clean_text("a & b")` is `"a  b"`, with two spaces, and cleaning that again gives
      `"a b"`: the result is not single-spaced and the function is not idempotent. */
  lemma CleanTextKeepsDoubleSpace()
    ensures CleanText("a & b") == "a  b"
    ensures !SingleSpaced(CleanText("a & b"))
    ensures CleanText(CleanText("a & b")) == "a b"
  {
    CleanAmpersand();
    CleanDoubleSpace();
    assert "a  b"[1] == ' ' && "a  b"[2] == ' ';
  }

  lemma CleanAmpersand()
    ensures CleanText("a & b") == "a  b"
  {
    NoTagIn("a & b");
    SplitAmpersand();
    assert Join(" ", ["a", "&", "b"]) == "a & b";
    assert KeepAllowed("a & b") == "a  b";
    StripOfStripped("a  b");
  }

  lemma SplitAmpersand()
    ensures Split("a & b") == ["a", "&", "b"]
  {
    assert "a & b" == "a" + [' '] + "& b";
    SplitWordThenSpace("a", "& b");
    SplitAmpersandTail();
  }

  lemma SplitAmpersandTail()
    ensures Split("& b") == ["&", "b"]
  {
    assert "& b" == "&" + [' '] + "b";
    SplitWordThenSpace("&", "b");
    SplitOneWord("b");
  }

  lemma CleanDoubleSpace()
    ensures CleanText("a  b") == "a b"
  {
    NoTagIn("a  b");
    SplitDoubleSpace();
    assert Join(" ", ["a", "b"]) == "a b";
    assert KeepAllowed("a b") == "a b";
    StripOfStripped("a b");
  }

  lemma SplitDoubleSpace()
    ensures Split("a  b") == ["a", "b"]
  {
    assert "a  b" == "a" + [' '] + " b";
    SplitWordThenSpace("a", " b");
    assert " b" == [' '] + "b";
    SplitSkipsSpace(' ', "b");
    SplitOneWord("b");
  }

  /** A string without `<` has no tag to remove. */
  lemma NoTagIn(s: string)
    requires forall k :: 0 <= k < |s| ==> s[k] != '<'
    ensures RemoveTags(s) == s
  {
    RemoveTagsSpec(s);
  }

  /** `clean_text` with the character filter applied before the whitespace is
      collapsed, which the comment "Remove extra whitespace" calls for. */
  function CleanTextCollapsed(text: string): string {
    if text == [] then []
    else Join(" ", Split(KeepAllowed(RemoveTags(text))))
  }

  /** The corrected cleaning gives single-spaced text of allowed characters. */
  lemma CleanTextCollapsedSpec(text: string)
    ensures SingleSpaced(CleanTextCollapsed(text))
    ensures forall i :: 0 <= i < |CleanTextCollapsed(text)| ==> Allowed(CleanTextCollapsed(text)[i])
    ensures forall i :: 0 <= i < |CleanTextCollapsed(text)| ==> CleanTextCollapsed(text)[i] != '<'
  {
    if text != [] {
      var keep := (c: char) => Allowed(c) && c != '<';
      var kept := KeepAllowed(RemoveTags(text));
      KeepAllowedSpec(RemoveTags(text), (c: char) => true);
      SplitSpec(kept, keep);
      JoinSpec(Split(kept), keep);
    }
  }

  /** Cleaning cleaned text changes nothing. */
  lemma CleanTextCollapsedIdempotent(text: string)
    ensures CleanTextCollapsed(CleanTextCollapsed(text)) == CleanTextCollapsed(text)
  {
    var once := CleanTextCollapsed(text);
    if once != [] {
      CleanTextCollapsedSpec(text);
      assert TagFree(once);
      RemoveTagsSpec(once);
      KeepAllowedSpec(once, (c: char) => true);
      var kept := KeepAllowed(RemoveTags(text));
      KeepAllowedSpec(RemoveTags(text), (c: char) => true);
      SplitSpec(kept, (c: char) => true);
      SplitOfJoin(Split(kept));
    }
  }

  /** When no character is filtered out, the source's order and the corrected order
      agree. */
  lemma CleanTextAgrees(text: string)
    requires forall i :: 0 <= i < |RemoveTags(text)| ==> Allowed(RemoveTags(text)[i])
    ensures CleanText(text) == CleanTextCollapsed(text)
  {
    if text != [] {
      var r := RemoveTags(text);
      KeepAllowedSpec(r, (c: char) => true);
      SplitSpec(r, Allowed);
      var j := Join(" ", Split(r));
      JoinSpec(Split(r), Allowed);
      KeepAllowedSpec(j, (c: char) => true);
      assert j == [] || (!IsSpace(j[0]) && !IsSpace(j[|j| - 1]));
      StripOfStripped(j);
    }
  }
}
