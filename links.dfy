/** Classification of a book's link as a local file or an online resource
    (`isLocalFile`), the badge it selects, and the branch `handleOpenBook`
    takes. */
module LinkKinds {
  import opened AsciiText

  predicate IsAsciiLetter(c: char) { IsUpper(c) || IsLower(c) }

  /** The anchored pattern `^([a-zA-Z]:\\|\/|~\/|\.\/|\.\.\/)` with the `i`
      flag: a drive letter, `/`, `~/`, `./` or `../` at the start. The flag
      changes nothing, as the only letters are already in both cases. */
  predicate MatchesPathPattern(link: string)
    ensures MatchesPathPattern(link) ==>
      link != [] && (link[0] in "/~." || (|link| >= 2 && IsAsciiLetter(link[0]) && link[1] == ':'))
  {
    (|link| >= 3 && IsAsciiLetter(link[0]) && link[1] == ':' && link[2] == '\\')
    || StartsWith(link, "/")
    || StartsWith(link, "~/")
    || StartsWith(link, "./")
    || StartsWith(link, "../")
  }

  /** The link names a resource on the network: it starts with one of the
      three schemes `isLocalFile` tests for, compared case-sensitively. */
  predicate HasRemoteScheme(link: string) {
    StartsWith(link, "http://") || StartsWith(link, "https://") || StartsWith(link, "ftp://")
  }

  /** A link that matches the path pattern or starts with `file://` never
      starts with a remote scheme: the first two tests of `isLocalFile`
      only accept links its third test accepts anyway. */
  lemma LocalFormsHaveNoScheme(link: string)
    ensures MatchesPathPattern(link) ==> !HasRemoteScheme(link)
    ensures StartsWith(link, "file://") ==> !HasRemoteScheme(link)
  {
    if HasRemoteScheme(link) {
      assert link[0] in "hf" && link[1] == 't' by {
        if StartsWith(link, "http://") {
          assert link[0] == "http://"[0] && link[1] == "http://"[1];
        } else if StartsWith(link, "https://") {
          assert link[0] == "https://"[0] && link[1] == "https://"[1];
        } else {
          assert link[0] == "ftp://"[0] && link[1] == "ftp://"[1];
        }
      }
    }
  }

  /** `isLocalFile(link)`, with its three tests. A link is local exactly
      when it has no remote scheme. */
  predicate IsLocalFile(link: string)
    ensures IsLocalFile(link) <==> !HasRemoteScheme(link)
  {
    LocalFormsHaveNoScheme(link);
    MatchesPathPattern(link)
    || StartsWith(link, "file://")
    || (!StartsWith(link, "http://") && !StartsWith(link, "https://") && !StartsWith(link, "ftp://"))
  }

  /** The badge a book card shows next to its "Open Book" button. */
  datatype Badge = LocalFileBadge | OnlineBadge

  function BadgeFor(link: string): (b: Badge)
    ensures b == LocalFileBadge <==> !HasRemoteScheme(link)
  {
    if IsLocalFile(link) then LocalFileBadge else OnlineBadge
  }

  /** What `handleOpenBook` does with a link: show the path and copy it to
      the clipboard, or open it in a new tab. */
  datatype OpenAction = ShowAndCopyPath(path: string) | OpenInNewTab(url: string)

  /** `handleOpenBook(link, title)`: the branch it takes, decided by its own
      inline copy of the `isLocalFile` test. */
  function OpenBook(link: string): (a: OpenAction)
    ensures a.ShowAndCopyPath? <==> !HasRemoteScheme(link)
    ensures a == ShowAndCopyPath(link) || a == OpenInNewTab(link)
  {
    var isLocalFile :=
      MatchesPathPattern(link)
      || StartsWith(link, "file://")
      || (!StartsWith(link, "http://") && !StartsWith(link, "https://") && !StartsWith(link, "ftp://"));
    LocalFormsHaveNoScheme(link);
    if isLocalFile then ShowAndCopyPath(link) else OpenInNewTab(link)
  }

  /** Opening a book always matches its badge. */
  lemma OpenAgreesWithBadge(link: string)
    ensures OpenBook(link).ShowAndCopyPath? <==> BadgeFor(link) == LocalFileBadge
  {
  }

  /** All three schemes have `t` as their second character. */
  lemma NoRemoteSchemeWithoutSecondT(link: string)
    requires |link| >= 2 && link[1] != 't'
    ensures IsLocalFile(link)
  {
  }

  /** The links the form's placeholder text mentions, and a few edge cases. */
  lemma ClassificationExamples()
    ensures !IsLocalFile("https://example.com/b.pdf")
    ensures IsLocalFile("C:\\Books\\b.pdf")
    ensures IsLocalFile("/home/u/b.pdf")
    ensures IsLocalFile("file://x")
    ensures IsLocalFile("relative/path.pdf")
    ensures IsLocalFile("HTTP://x")
  {
    assert StartsWith("https://example.com/b.pdf", "https://");
    NoRemoteSchemeWithoutSecondT("C:\\Books\\b.pdf");
    NoRemoteSchemeWithoutSecondT("/home/u/b.pdf");
    NoRemoteSchemeWithoutSecondT("file://x");
    NoRemoteSchemeWithoutSecondT("relative/path.pdf");
    NoRemoteSchemeWithoutSecondT("HTTP://x");
  }
}
