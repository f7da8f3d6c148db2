# Dependency-specifier classifier of poetry-riir

A Dafny model of the dependency-specifier classifier of poetry-riir (a Rust
re-implementation of the Poetry package manager for Python), in
`poetry/src/add/package_format.rs`. It sorts one specifier, such as `requests`
or `numpy@^1.2`, into a package format. At this revision nothing calls it yet:
`add::climain` passes the raw dependency strings straight to the index lookup
(`poetry/src/add/mod.rs:23`).

- `Named::try_from` splits the text on `@`. Segment 0 is the package name
  and must consist of ASCII letters only. Segment 1, if present, is handed to
  semver's `VersionReq::parse`. A segment 2 is refused. Every failure is
  `UnknownPackageFormat` carrying the whole input.
- `GitUrl::try_from`, `FilePath::try_from` and `Folder::try_from` are stubs
  that refuse every input.
- `PackageFormat::try_from` tries Named, GitUrl, FilePath and Folder in that
  order, and the first success wins. So in effect a specifier is either
  `Named` or `UnknownPackageFormat`.

Files:

- `wrappers.dfy`: `Option` and `Result`.
- `error.dfy`: `PoetryError`, reduced to `UnknownPackageFormat(format)`.
- `strings.dfy`: Rust's `str::split(char)` as `Strings.Split`, plus `Find`, `Count`, and `Join`, the inverse of `Split`.
  It keeps empty segments and always yields at least one segment.
- `package_format.dfy`: the format datatypes, the four `try_from` constructors,
  the top-level classifier, and lemmas about them.

`semver::VersionReq::parse` is a foreign library. Here it is the parameter
`parseReq: string -> Option<Req>`, where the type parameter `Req` stands for
`VersionReq`. Every property holds for every such parser.

The characterisation `PackageFormats.IsNamedSpecifier` does not mention
splitting. An input is accepted exactly when:

- it has at most one `@`;
- the text before the first `@` (or the whole input) is ASCII-alphabetic;
- the text after the `@`, if there is one, parses.

`NamedTryFrom` and `PackageFormatTryFrom` are proved to succeed exactly on
these inputs.

Quirks of the code as written, which the model keeps:

- `PackageFormat::try_from` tries Named first
  (`poetry/src/add/package_format.rs:19`).
- An unparsable constraint is reported as `UnknownPackageFormat` with the
  whole input (`poetry/src/add/package_format.rs:64-66`).
- An empty name passes the letters-only check, because `all` over no characters
  is true. So `""` is `Named("", None)`, and `"@<range>"` is accepted with an
  empty name when the range parses.
- `PoetryError` in `poetry/src/error.rs` has no `UnknownPackageFormat` variant
  at this revision. The shape of that variant is taken from its uses in
  `package_format.rs`.

## Model

| member | source | states |
|---|---|---|
| Strings.Split | poetry/src/add/package_format.rs:45 | `value.split('@')` yields one more segment than there are `@` in the input, and no segment contains `@` |
| Strings.JoinSplit | poetry/src/add/package_format.rs:45 | splitting loses no text: joining the segments with `@` restores the input |
| Strings.SplitJoin | poetry/src/add/package_format.rs:45 | splitting is the inverse of joining separator-free segments, so the segments are exactly the text between separators |
| PackageFormats.NamedTryFrom | poetry/src/add/package_format.rs:44-78 | succeeds exactly when the input has at most one `@`, an ASCII-alphabetic name part, and a parsable constraint when `@` is present; the name is the text before the first `@` (or the whole input); the constraint is absent exactly when there is no `@`, and otherwise is the parse of the text after it; every failure is `UnknownPackageFormat` with the whole input |
| PackageFormats.GitUrlTryFrom | poetry/src/add/package_format.rs:97-101 | never recognises an input; the error carries the whole input |
| PackageFormats.FilePathTryFrom | poetry/src/add/package_format.rs:112-116 | never recognises an input; the error carries the whole input |
| PackageFormats.FolderTryFrom | poetry/src/add/package_format.rs:127-131 | never recognises an input; the error carries the whole input |
| PackageFormats.PackageFormatTryFrom | poetry/src/add/package_format.rs:18-32 | returns a format exactly when the named form accepts the input, and then it is `Named` with the named parser's result; otherwise `UnknownPackageFormat` with the whole input |
| PackageFormats.FirstSegmentAlwaysPresent | poetry/src/add/package_format.rs:47-51 | the first `next()` on the segments always yields the name part, so the `ok_or_else` error is unreachable |
| PackageFormats.EmptyInputIsNamed | poetry/src/add/package_format.rs:47-54 | the empty input is accepted as a package with an empty name and no constraint |
| PackageFormats.TwoSeparatorsRejected | poetry/src/add/package_format.rs:68-72 | an input with two or more `@` is rejected with `UnknownPackageFormat` of the whole input, whatever its second segment is |
| PackageFormats.NonAlphabeticNameRejected | poetry/src/add/package_format.rs:53-58 | a name part holding any character that is not an ASCII letter (digit, `-`, `_`, `.`, `/`, `:` ...) is rejected with `UnknownPackageFormat` of the whole input |
| PackageFormats.BadConstraintRejected | poetry/src/add/package_format.rs:60-66 | an alphabetic name followed by `@` and a constraint that does not parse gives `UnknownPackageFormat` of the whole input, not a distinct error |
| PackageFormats.RenderThenParse | poetry/src/add/package_format.rs:74-77 | parsing `name` or `name@text` (alphabetic name, `@`-free text that parses) gives back that name, with no constraint or with the parsed text |
| PackageFormats.OneSeparatorDecomposes | poetry/src/add/package_format.rs:45-51 | an input with exactly one `@` is the name part, `@` and the constraint text, neither of which contains `@` |

## Left out

- `GitUrl`, `FilePath` and `Folder` recognition: the source implements none of them, so these constructors are modelled as the stubs they are.
- `semver::VersionReq::parse`: a foreign library. It is the parameter `parseReq`. Its error value is dropped by the source's `map_err`, so the parameter returns an `Option`.
- `PoetryError`: only `UnknownPackageFormat` is modelled. The other variants in `poetry/src/error.rs` come from directory checks, TOML and I/O, which this model does not contain.
- `poetry/src/add/mod.rs`: index lookups over HTTP, asynchronous fan-out and JSON decoding are network I/O. Reading `pyproject.toml` from the current directory is filesystem I/O.
- `poetry/src/add/provider.rs` and `poetry/src/add/pypi.rs`: an asynchronous interface with no implementation, and response records with no logic.
- `poetry/src/document.rs`: serialisation schema only. The source has no dependency-table merge, so there is nothing to model.
- `poetry/src/init`: project scaffolding. It creates files, fills a license template, and reads the clock.
- `src/main.rs`: command-line wiring.
- Version-constraint enforcement against the index, dependency-table merging and virtual environments: not implemented in the source.
- Byte versus character indexing: Rust splits UTF-8 bytes, while the model splits Unicode scalar values. Because `@` is ASCII, both give the same segments.
