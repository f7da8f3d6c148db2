/**
 Classification of one dependency specifier into a package format. Only the named form (`<name>` or `<name>@<range>`) is
 recognised; the git-URL, file-path and folder constructors exist but reject
 every input.

 Parsing a version range is semver's `VersionReq::parse`, a library this model
 does not contain: it is the parameter `parseReq`, and `Req` stands for the
 library's `VersionReq`.
 */
module PackageFormats {
  import opened Wrappers
  import opened Strings
  import opened Error

  /** Separator between a package name and its version constraint. */
  const At: char := '@'

  /** A package from the index, with an optional version constraint. */
  datatype Named<Req> = Named(name: string, constraint: Option<Req>)

  datatype GitKind = Https | Ssh

  /** A package fetched from a git repository. */
  datatype GitUrl = GitUrl(url: string, revision: Option<string>, kind: GitKind)

  /** A package given as a local archive. */
  datatype FilePath = FilePath(filePath: string)

  /** A package given as a local project directory. */
  datatype Folder = Folder(folderPath: string)

  /** The kinds of specifier the classifier distinguishes. */
  datatype PackageFormat<Req> =
    | NamedFormat(named: Named<Req>)
    | GitUrlFormat(git: GitUrl)
    | FilePathFormat(file: FilePath)
    | FolderFormat(folder: Folder)

  /** Rust's `char::is_ascii_alphabetic`. */
  predicate IsAsciiAlphabetic(c: char)
  {
    'A' <= c <= 'Z' || 'a' <= c <= 'z'
  }

  /** Every character is an ASCII letter; true of the empty text. */
  predicate AllAsciiAlphabetic(s: string)
  {
    forall i :: 0 <= i < |s| ==> IsAsciiAlphabetic(s[i])
  }

  /** What the `k`-th call to `next()` on a fresh iterator over `segments` yields. */
  function Next(segments: seq<string>, k: nat): Option<string>
  {
    if k < |segments| then Some(segments[k]) else None
  }

  /** The text before the first `@`, or all of `s` when it has none. */
  function NamePart(s: string): string
  {
    match Find(s, At)
    case None => s
    case Some(i) => s[..i]
  }

  /** The text after the first `@`, if there is one. */
  function ConstraintText(s: string): Option<string>
  {
    match Find(s, At)
    case None => None
    case Some(i) => Some(s[i + 1..])
  }

  /**
   The inputs the named form accepts, stated without splitting: at most one
   `@`, a name of ASCII letters only, and a constraint that parses when an
   `@` is present.
   */
  predicate IsNamedSpecifier<Req>(s: string, parseReq: string -> Option<Req>)
  {
    && Count(s, At) <= 1
    && AllAsciiAlphabetic(NamePart(s))
    && (ConstraintText(s).Some? ==> parseReq(ConstraintText(s).value).Some?)
  }

  /** The specifier text a user writes for a name and an optional constraint. */
  function Render(name: string, constraintText: Option<string>): string
  {
    match constraintText
    case None => name
    case Some(text) => name + [At] + text
  }

  /** How the `@`-segments of a specifier relate to its name part and constraint text. */
  lemma SegmentsOfSpecifier(value: string)
    ensures Split(value, At)[0] == NamePart(value)
    ensures Count(value, At) == 1 ==> Split(value, At) == [NamePart(value), ConstraintText(value).value]
  {
  }

  /**
   `Named::try_from`: split on `@`, take segment 0 as the name, parse segment 1
   (if any) as the constraint, refuse a segment 2. Every failure, including an
   unparsable constraint, is `UnknownPackageFormat` with the whole input.
   */
  function NamedTryFrom<Req>(value: string, parseReq: string -> Option<Req>): (r: Result<Named<Req>, PoetryError>)
    ensures r.Success? <==> IsNamedSpecifier(value, parseReq)
    ensures r.Success? ==> r.value.name == NamePart(value)
    ensures r.Success? ==> (r.value.constraint.None? <==> At !in value)
    ensures r.Success? && At in value ==> r.value.constraint == parseReq(ConstraintText(value).value)
    ensures r.Failure? ==> r.error == UnknownPackageFormat(value)
  {
    SegmentsOfSpecifier(value);
    CountPositive(value, At);
    var segments := Split(value, At);
    match Next(segments, 0)
    case None =>
      // `ok_or_else`: unreachable, `split` yields at least one segment
      Failure(UnknownPackageFormat(value))
    case Some(packageName) =>
      if !AllAsciiAlphabetic(packageName) then
        Failure(UnknownPackageFormat(value))
      else
        var req: Result<Option<Req>, PoetryError> :=
          match Next(segments, 1)
          case None => Success(None)
          case Some(text) =>
            match parseReq(text)
            case None => Failure(UnknownPackageFormat(value))
            case Some(q) => Success(Some(q));
        if Next(segments, 2).Some? then
          Failure(UnknownPackageFormat(value))
        else
          match req
          case Failure(e) => Failure(e)
          case Success(constraint) =>
            Success(Named(packageName, constraint))
  }

  /** `GitUrl::try_from`: not implemented, so no input is a git URL. */
  function GitUrlTryFrom(value: string): (r: Result<GitUrl, PoetryError>)
    ensures r.Failure? && r.error.format == value
  {
    Failure(UnknownPackageFormat(value))
  }

  /** `FilePath::try_from`: not implemented, so no input is a file path. */
  function FilePathTryFrom(value: string): (r: Result<FilePath, PoetryError>)
    ensures r.Failure? && r.error.format == value
  {
    Failure(UnknownPackageFormat(value))
  }

  /** `Folder::try_from`: not implemented, so no input is a folder. */
  function FolderTryFrom(value: string): (r: Result<Folder, PoetryError>)
    ensures r.Failure? && r.error.format == value
  {
    Failure(UnknownPackageFormat(value))
  }

  /**
   `PackageFormat::try_from`: the first of Named, GitUrl, FilePath, Folder
   that accepts the input wins; otherwise `UnknownPackageFormat`.
   */
  function PackageFormatTryFrom<Req>(value: string, parseReq: string -> Option<Req>): (r: Result<PackageFormat<Req>, PoetryError>)
    ensures r.Success? <==> IsNamedSpecifier(value, parseReq)
    ensures r.Success? ==> r.value.NamedFormat? && NamedTryFrom(value, parseReq) == Success(r.value.named)
    ensures r.Failure? ==> r.error == UnknownPackageFormat(value)
  {
    match NamedTryFrom(value, parseReq)
    case Success(named) => Success(NamedFormat(named))
    case Failure(_) =>
      match GitUrlTryFrom(value)
      case Success(git) => Success(GitUrlFormat(git))
      case Failure(_) =>
        match FilePathTryFrom(value)
        case Success(fp) => Success(FilePathFormat(fp))
        case Failure(_) =>
          match FolderTryFrom(value)
          case Success(fldr) => Success(FolderFormat(fldr))
          case Failure(_) => Failure(UnknownPackageFormat(value))
  }

  /** The first call to `next()` always yields a segment, so the `ok_or_else` error cannot occur. */
  lemma FirstSegmentAlwaysPresent(value: string)
    ensures Next(Split(value, At), 0) == Some(NamePart(value))
  {
  }

  /** The empty input is accepted as a package with an empty name and no constraint. */
  lemma EmptyInputIsNamed<Req>(parseReq: string -> Option<Req>)
    ensures NamedTryFrom("", parseReq) == Success(Named("", None))
  {
  }

  /** Two or more `@` are rejected with the whole input, whatever the constraint. */
  lemma TwoSeparatorsRejected<Req>(value: string, parseReq: string -> Option<Req>)
    requires Count(value, At) >= 2
    ensures NamedTryFrom(value, parseReq) == Failure(UnknownPackageFormat(value))
  {
  }

  /** A name with any character that is not an ASCII letter is rejected with the whole input. */
  lemma NonAlphabeticNameRejected<Req>(value: string, parseReq: string -> Option<Req>, j: nat)
    requires j < |NamePart(value)| && !IsAsciiAlphabetic(NamePart(value)[j])
    ensures NamedTryFrom(value, parseReq) == Failure(UnknownPackageFormat(value))
  {
  }

  /**
   Parsing the rendered form of an alphabetic name and a separator-free
   constraint text gives the name back, with the parsed constraint.
   */
  lemma RenderThenParse<Req>(name: string, constraintText: Option<string>, parseReq: string -> Option<Req>)
    requires AllAsciiAlphabetic(name)
    requires constraintText.Some? ==> At !in constraintText.value && parseReq(constraintText.value).Some?
    ensures NamedTryFrom(Render(name, constraintText), parseReq)
         == Success(Named(name, if constraintText.None? then None else parseReq(constraintText.value)))
  {
    assert forall k :: 0 <= k < |name| ==> name[k] != At;
    match constraintText
    case None =>
      CountPositive(name, At);
    case Some(text) =>
      var s := name + [At] + text;
      FindAfterFreePrefix(name, At, text);
      assert s[..|name|] == name;
      assert s[|name| + 1..] == text;
      CountAppend(name + [At], text, At);
      CountAppend(name, [At], At);
      CountPositive(name, At);
      CountPositive(text, At);
  }

  /** A constraint that does not parse yields `UnknownPackageFormat`, not an error of its own. */
  lemma BadConstraintRejected<Req>(name: string, text: string, parseReq: string -> Option<Req>)
    requires AllAsciiAlphabetic(name) && At !in text
    requires parseReq(text).None?
    ensures NamedTryFrom(name + [At] + text, parseReq) == Failure(UnknownPackageFormat(name + [At] + text))
  {
  }

  /** Every input with a single `@` is the rendering of the text around it. */
  lemma OneSeparatorDecomposes(value: string)
    requires Count(value, At) == 1
    ensures ConstraintText(value).Some?
    ensures At !in NamePart(value) && At !in ConstraintText(value).value
    ensures value == Render(NamePart(value), ConstraintText(value))
  {
    SplitOnce(value, At);
    JoinSplit(value, At);
  }
}
