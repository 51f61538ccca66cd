# Pathway resolution and file chunking, modelled in Dafny

This project models the core of `config.py`, the support module of a gene-orthology
pipeline, as pure Dafny functions over sequences, and proves what the module promises:

- **Pathway resolution** (`read_pathways`, `write_config`). The configuration is the
  sequence of lines the configuration file yields. Any line holding `#` is skipped
  whole. Every other line is split on whitespace as Python's `str.split()` does; its
  first token is the identifier and its second the configured path. The identifier maps
  to the bundled resource when `<id>.db` exists, otherwise to the configured path
  unchanged, and a later line for the same identifier overwrites an earlier one.
  Writing turns a mapping back into one `"id path\n"` line per identifier, replacing
  the whole file.
- **Byte-range chunker** (`file_block`). The file is its content, one character per
  byte. Block `k` of `n` has the nominal range `[size*k/n, size*(k+1)/n)` (floor
  division). A nonzero start moves to the first line boundary at or after it, by
  seeking one byte early and discarding the rest of that line. The generator then
  yields whole lines while the cursor is before the nominal end. Reading blocks `0..n-1`
  in order yields every line of the file exactly once, in order.
- **String tokeniser** (the string branch of `make_a_list`). `re.findall(r'[^\s,]+', s)`
  gives the maximal runs of characters that are neither whitespace nor comma.

Files, one module each:

- `strings.dfy`: `Concat`, the join of a sequence of strings.
- `text_lines.dfy`: `LineEnd` (where `readline()` leaves the cursor) and `Lines` (the
  file's line sequence), with the uniqueness of the line decomposition.
- `tokens.dfy`: maximal runs of non-separator characters (`Runs`), characterised in both
  directions by `Weave`. `Split` is Python's `str.split()`.
- `pathways.dfy`: `ReadPathways`, `WriteConfig` and their properties.
- `file_block.dfy`: `NominalRange`, `AlignUp`, `Block`, the partition theorem and an
  imperative `FileBlockLines` with the generator's loop.
- `gene_list.dfy`: `ListFromString`, the string branch of `make_a_list`.

Whitespace is the whitespace of Python 2 byte strings: space, tab, line feed, carriage
return, vertical tab and form feed. `str.split()` and the regular-expression class `\s`
agree on it.

Bundled resources are two parameters. `resourceExists` is asked about `"<id>.db"`, and
`resourcePath` gives the resource's filesystem path for an identifier. The dictionary's
iteration order in `write_config` is a parameter `order` that lists every key once.

## Model

| member | source | states |
|---|---|---|
| TextLines.LineEnd | config.py:122-126 | `readline()` from a cursor stops just past the first newline at or after it, or at the end of the file when there is none |
| TextLines.LinesJoinBack | config.py:57 | iterating a file yields lines that join back to the whole content |
| TextLines.LinesAreLines | config.py:57 | each yielded line is nonempty with a newline only as its last character, and every line but the last ends with one |
| TextLines.LinesOfConcat | config.py:57 | the line decomposition is unique: splitting the join of well-formed lines gives exactly those lines back |
| Tokens.Split | config.py:57 | `line.split()` returns nonempty whitespace-free tokens that together are the line with its whitespace removed |
| Tokens.RunsStrip | config.py:194 | joining the tokens gives the string with every separator removed |
| Tokens.RunsWeave | config.py:57 | every string is its tokens interleaved with separator-only gaps, with a nonempty gap between any two tokens |
| Tokens.RunsUnique | config.py:57 | any such interleaving that spells the string has exactly the string's tokens |
| Tokens.RunsAreMaximal | config.py:194 | a token sequence is the tokenisation of a string if and only if separator gaps weave it into that string with no two tokens touching |
| GeneList.ListFromString | config.py:194 | `re.findall(r'[^\s,]+', s)` returns nonempty tokens free of whitespace and commas, which together are `s` with all whitespace and commas removed |
| GeneList.ListFromStringMaximal | config.py:194 | the returned list is exactly the sequence of maximal whitespace-and-comma-free runs of `s`, in order |
| Pathways.ReadPathwaysFailure | config.py:57 | the read fails if and only if a non-comment line has fewer than two tokens; it then names the first such line and returns no mapping |
| Pathways.ReadPathwaysKeys | config.py:57-63 | the mapping's identifiers are exactly the first tokens of the non-comment lines |
| Pathways.ReadPathwaysValues | config.py:58-63 | each identifier maps to the resolution of its last configuration line, so later duplicates overwrite earlier ones |
| Pathways.BundledResourceWins | config.py:59-61 | when `<id>.db` is bundled, the identifier resolves to the bundled resource whatever path its configuration gives |
| Pathways.ConfiguredPathKept | config.py:62-63 | without a bundled `<id>.db`, the identifier resolves to exactly the second token of its last configuration line |
| Pathways.CommentLineIgnored | config.py:57 | a line containing `#` anywhere contributes nothing: removing it changes neither success nor the mapping |
| Pathways.ApplyLineKeepsAgreement | config.py:57-63 | processing the same line after two outcomes with the same mapping keeps the mappings equal |
| Pathways.WriteConfigLines | config.py:66-70 | the rewritten file holds exactly one line `id + " " + path + "\n"` per identifier, in iteration order, and nothing else, provided no identifier or path holds a newline (a path with a newline would be written as two lines) |
| Pathways.WrittenLines | config.py:66-70 | when no identifier or path holds a newline, reading the rewritten file line by line gives back exactly the lines written (a newline inside a path would split its line in two) |
| Pathways.SplitConfigLine | config.py:69 | when the identifier and the path are nonempty and free of whitespace, a written line splits back into exactly its identifier and its path (a path with a space would split into more tokens) |
| Pathways.ReadAfterWrite | config.py:50-70 | when every identifier and path is nonempty and free of whitespace and `#`, reading back what was written gives every identifier its written path, or its bundled resource where one exists; other mappings do not survive the round trip in the source either |
| Pathways.ReadAfterWriteWithoutResources | config.py:50-70 | with no bundled resources, and every identifier and path nonempty and free of whitespace and `#`, reading back what was written gives the original mapping |
| FileBlock.NominalRange | config.py:110-117 | for `0 <= block < blocks`, the nominal range satisfies `0 <= ini <= end <= size`; block 0 starts at 0 and the last block ends at the file size |
| FileBlock.NominalRangesMeet | config.py:116-117 | the nominal end of block `k` is the nominal start of block `k+1` |
| FileBlock.AlignUp | config.py:119-123 | the aligned start is 0 for offset 0, otherwise the first line boundary at or after the nominal start |
| FileBlock.AlignedBoundaryKept | config.py:119-123 | a nominal start that lands just after a newline is kept, so no extra line is skipped |
| FileBlock.CursorAfter | config.py:125-126 | started at a line boundary no later than the boundary the nominal end aligns to, the generator stops with the cursor exactly at that boundary, the first one at or after the nominal end |
| FileBlock.ReadLinesAreLines | config.py:125-126 | every item the generator yields is a whole line: nonempty, with a newline only as its last character, and every item but the last ends with its newline |
| FileBlock.ReadLinesCover | config.py:125-126 | the yielded lines are exactly the bytes the cursor passes over |
| FileBlock.ReadLinesToEnd | config.py:125-126 | with the nominal end at the file size, the generator yields the lines of the rest of the file from its cursor on |
| FileBlock.ReadLinesSplit | config.py:125-126 | reading to a nearer end and then on to a farther one yields the same lines as reading to the farther end at once |
| FileBlock.BlockCoversAlignedRange | config.py:113-126 | a block yields whole lines, every one but the last ending with its newline, which together are the bytes between its aligned start and its aligned end; so the block is exactly the line sequence of that byte range |
| FileBlock.BlocksPartitionLines | config.py:98-126 | blocks `0..n-1` read in order yield the file's full line sequence: none repeated, none dropped, the last possibly without a newline |
| FileBlock.DefaultBlocksPartitionLines | config.py:91 | with the default count of 1000 blocks, reading every block in order yields the file's full line sequence |
| FileBlock.ReadLine | config.py:123 | the scan for the next newline leaves the cursor where `readline()` does |
| FileBlock.ReadUntil | config.py:125-126 | the loop that calls `readline()` while the cursor is before the nominal end yields exactly the generator's lines |
| FileBlock.FileBlockLines | config.py:91-126 | the generator's loop yields the block's lines: whole lines, every one but the last ending with its newline, that together are the bytes between the aligned start and the aligned end; by `TextLines.LinesOfConcat` this is exactly the line sequence of that byte range |

## Left out

- `verbalise` and `check_verbose` (config.py:21-48): terminal output, tty detection and rebinding a global function.
- `pickle_jar` and `open_pickle_jar` (config.py:76-87): serialisation through a foreign library.
- `check_overwrite` and `create_log` (config.py:128-168): interactive input, timestamps, directory creation, `exit()` and file writes.
- `make_a_list` outside its string branch (config.py:178-193, 195-196): type dispatch on lists and dictionaries, and reading a file. The string branch is modelled for the default separators only. A custom `sep` is a regular-expression fragment and is not modelled. The file branch's guard at config.py:191, `len(cols) >= col_num`, lets `cols[col_num]` index one past the end; that branch is not part of this model.
- template.py: command-line declaration and temporary-directory cleanup.
- Opening, reading, truncating and closing files: the configuration arrives as its lines, the chunked file as its content, and `write_config` returns the new file content. Failing to open a file is not modelled.
- The concrete resource lookup (config.py:59-61): `resource_exists` and `resource_filename` are the parameters `resourceExists` and `resourcePath`. As written, config.py:61 calls `os.path.join` with a single list argument, which returns that list unchanged. `resource_filename` then receives a list where it expects a string path, so as written the bundled branch cannot return a path and `read_pathways` most likely fails on any line whose `<id>.db` is bundled. `Pathways.Resolve`, `Pathways.BundledResourceWins`, `Pathways.ReadAfterWrite` and `Pathways.ReadAfterWriteWithoutResources` describe the evidently intended lookup, with the resource's path left abstract.
- Malformed lines: the source raises IndexError at the first non-comment line with fewer than two tokens, and has no named error. The model returns `Malformed(index)` and no partial mapping. A blank line counts as malformed, as it does in the source.
- The dictionary's iteration order in `write_config` is not modelled; it is a parameter.
- Laziness of the generator and shared file handles: `file_block` is modelled as the finite list of lines one full iteration yields. The `assert` preconditions at config.py:110-111 are `requires` clauses.
- The usage example in the docstring (config.py:105) passes the block count and block index in swapped order; the model follows the signature.
- Sizes and offsets are unbounded integers; Python 2 integers do not overflow, and nonnegative floor division matches Dafny's `/`.
