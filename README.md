# Settings logic of AutonomousWebResearcher, in Dafny

Apart from a one-off scraper script, the repository's executable logic is
the `Settings` class in `src/utils/config.py`. Most of that class is configuration: fields with
defaults that are loaded from environment variables. Two pieces compute
something, and they are modelled here:

- **Domain lists.** `allowed_domains_list` and `blocked_domains_list` turn a
  comma-separated setting into a list. Each field is split on `,`, stripped
  of surrounding whitespace, and dropped when it is blank.
  `allowed_domains_list` also returns `[]` early when its setting is empty.
- **Directory bootstrap.** `create_directories` builds the list of
  directories to create. The list is the parent of the vector store path,
  the cache path, and the parent of the log file. When the database URL
  starts with `sqlite`, one more entry is appended: the parent of that URL
  with `sqlite:///` removed.

The behaviours these settings configure (crawling, chunking, caching,
domain policy, rate limits, the vector store, search and retrieval) have no
code in the repository. They appear only as configuration fields, so nothing of them is
modelled.

Files:

- `pystr.dfy` (module `PyStr`) models the Python string operations the
  settings code calls. `Split` is `str.split(sep)` with an explicit
  one-character separator. `Strip` is `str.strip()` with no argument, where `IsSpace` is
  exactly the set of code points that `str.isspace()` accepts. `RemoveAll`
  is `str.replace(pat, "")`. `str.startswith` is Dafny's sequence-prefix
  operator `<=`. `Join` (`sep.join`) is not called by the settings code; it
  is defined only as the inverse of `Split`, to state the round-trip and
  re-parsing lemmas.
- `config.dfy` (module `Config`) models the `Settings` record, restricted to
  the six fields these operations read, with their declared defaults. It
  defines the comprehension `[d.strip() for d in s.split(",") if d.strip()]`
  as `DomainsList(s) = NonEmpty(Stripped(Split(s, ',')))`, the two derived
  lists, and the directory list as the method `DirectoriesToCreate`.
  `pathlib.Path` values are the symbolic datatype `Path`: `Path(s)` is
  `Path(s)` and `Parent(p)` is `p.parent`.

## Model

| member | source | states |
|---|---|---|
| `PyStr.Split` | src/utils/config.py:104 | `split(",")` gives exactly one more field than the input has commas, and no field contains the separator |
| `PyStr.JoinSplit` | src/utils/config.py:104 | joining the split fields with the separator gives back the input, so splitting loses no character |
| `PyStr.SplitJoin` | src/utils/config.py:104 | splitting a join of one or more separator-free fields gives back exactly those fields |
| `PyStr.IsSpace` | src/utils/config.py:104 | the whitespace that `strip()` removes: exactly the code points for which CPython's `str.isspace()` is true (bidirectional class WS, B or S, or category Zs), written out as ranges |
| `PyStr.Strip` | src/utils/config.py:104 | `strip()` never lengthens a string, and its result neither starts nor ends with whitespace |
| `PyStr.StripSpan` | src/utils/config.py:104 | `strip()` returns one contiguous slice of its input, and every character outside that slice is whitespace |
| `PyStr.StripChars` | src/utils/config.py:104 | every character of a stripped string is a character of the original |
| `PyStr.StripFixed` | src/utils/config.py:104 | a string is its own `strip()` exactly when it neither starts nor ends with whitespace |
| `PyStr.StripIdempotent` | src/utils/config.py:104 | stripping twice gives the same result as stripping once |
| `PyStr.StripEmptyIffBlank` | src/utils/config.py:104 | a field strips to `""` exactly when it is all whitespace, so the `if domain.strip()` guard drops exactly the blank fields |
| `PyStr.RemoveAll` | src/utils/config.py:121 | `replace("sqlite:///", "")` never lengthens the URL; its value on every input is fixed by `RemoveAllAbsent` and `RemoveAllFirst` |
| `PyStr.RemoveAllAbsent` | src/utils/config.py:121 | a string in which the pattern never occurs is left unchanged |
| `PyStr.RemoveLeading` | src/utils/config.py:121 | removing the pattern from the pattern followed by `t` gives `t` when the pattern does not occur in `t` |
| `PyStr.RemoveAllFirst` | src/utils/config.py:121 | for `x + pat + t` where `pat` does not start inside `x`, the result is `x` followed by the removal applied to `t`: the leftmost occurrence is dropped, what precedes it is kept, and the scan resumes after it without rescanning |
| `Config.Stripped` | src/utils/config.py:104 | `domain.strip()` over the fields gives one entry per field, each with no surrounding whitespace and empty exactly when its field is blank |
| `Config.NonEmpty` | src/utils/config.py:104 | the `if domain.strip()` filter never lengthens the list and keeps no empty entry |
| `Config.NonEmptyOrder` | src/utils/config.py:104 | the filter returns the non-empty entries at the strictly increasing positions `Kept(ds)`, and a position is kept exactly when its entry is non-empty, so input order is kept and nothing non-empty is dropped |
| `Config.NonEmptyMembers` | src/utils/config.py:104 | a value is in the filtered list exactly when it is non-empty and is an entry of the input |
| `Config.DomainsList` | src/utils/config.py:104-109 | no entry of a parsed domain list is empty, has surrounding whitespace or contains a comma, and there are at most (number of commas + 1) entries |
| `Config.DomainsListOrder` | src/utils/config.py:104 | the parsed list is, in input order, the strips of exactly the comma-fields that are not blank |
| `Config.DomainsListMembers` | src/utils/config.py:104 | a domain is in the parsed list exactly when it is non-empty and is the strip of one of the comma-fields of the setting |
| `Config.DomainsListJoin` | src/utils/config.py:104 | parsing the comma-join of non-empty, trimmed, comma-free entries gives back exactly those entries |
| `Config.DomainsListIdempotent` | src/utils/config.py:104 | joining a parsed list with commas and parsing it again gives the same list |
| `Config.AllowedDomainsList` | src/utils/config.py:99-104 | `allowed_domains_list` always equals the general comprehension on `allowed_domains`, so the early return for `""` is redundant |
| `Config.BlockedDomainsList` | src/utils/config.py:106-109 | `blocked_domains_list` is the same function of `blocked_domains` as `allowed_domains_list` is of `allowed_domains` |
| `Config.Defaults` | src/utils/config.py:22-91 | with the declared defaults (`allowed_domains` is `""`, `database_url` is `None`) the allow-list is empty and the URL is not an SQLite URL, so no database directory is added |
| `Config.DefaultBlockedJoin` | src/utils/config.py:79-82 | the default `blocked_domains` string (the constant `DefaultBlockedDomains`) is its five entries joined with commas |
| `Config.DefaultBlockedList` | src/utils/config.py:79-82 | with the default `blocked_domains`, the block-list is exactly `localhost`, `127.0.0.1`, `10.0.0.0/8`, `172.16.0.0/12`, `192.168.0.0/16`, in that order |
| `Config.IsSqliteUrl` | src/utils/config.py:119 | the test `database_url and database_url.startswith("sqlite")` holds exactly when the URL is present and starts with `sqlite`; the truthiness part is implied |
| `Config.DirectoriesToCreate` | src/utils/config.py:113-122 | the list holds the parent of `vector_db_path`, then `cache_path`, then the parent of `log_file`; a fourth entry is appended exactly when `database_url` is present and starts with `sqlite`, and it is the parent of the URL with every `sqlite:///` removed |
| `Config.SqliteDatabasePath` | src/utils/config.py:119-122 | for a URL `sqlite:///p` in which the scheme does not occur again, the URL counts as SQLite and the extra directory is derived from `p` |
| `Config.AsyncDriverUrlPath` | src/utils/config.py:119-122 | `sqlite+aiosqlite:///./data/app.db` counts as SQLite, and removing `sqlite:///` leaves `sqlite+aio./data/app.db`, whose parent is the directory added |

## Left out

- Loading settings from environment variables and `.env` through pydantic
  (src/utils/config.py:2, 7-97, 129). It belongs to a foreign library; the
  model takes the resolved values as a `Settings` value.
- Every setting other than the six that the modelled operations read. They
  are declared and never computed with. That includes the float settings.
- The `mkdir(parents=True, exist_ok=True)` loop of `create_directories`
  (src/utils/config.py:124-125) and the calls made when the module is
  imported (src/utils/config.py:128-132). These are filesystem I/O.
  `DirectoriesToCreate` returns the list that loop walks.
- Path normalisation by `pathlib`. `Path` is symbolic, so two paths that
  pathlib would treat as equal (`./data` and `data`) are different values
  here.
- `PyStr.RemoveAll` requires a non-empty pattern. Python's
  `replace("", "")` case is never reached, because the code always removes
  the constant `sqlite:///`.
- `tests/static_scrapper.py`: a one-off scraper for a live site. It uses
  HTTP requests, HTML parsing with BeautifulSoup, and a pandas DataFrame
  that it prints, and has no logic of its own to state.
- The crawl, chunk, embed, index and retrieve pipeline, with its chunk
  windows, cache TTL, rate limits, policy decisions and CIDR matching. The
  settings name these, but the repository implements none of them.
