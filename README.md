# nemuBE core, modelled in Dafny

This project models two parts of the nemuBE FastAPI back end.

- The item routes (`app/routers/items.py`). A module-level list of item records starts with one sample record. `GET /` lists the records. `GET /{item_id}` returns the first record with that id or raises 404 "Item not found". `POST /` appends the record it receives and answers 201. The list becomes the class `Items.ItemTable`, with the list as a `seq` field and one method per route.
- The `/process-image` handler (`app/main.py`). It runs the Kumiko segmenter. It then takes the regular files of the segmenter's panel directory and sorts them. For each panel file in turn it issues two commands: an ImageMagick copy of the file to `panel{i}.png`, and a draw of that copy onto a transparent canvas of the page size at the panel's position, written to `formatted_panel{i}.png`. Last, it stacks the canvases into `output_psd.psd` through one shell command. The model is `Pipeline.ProcessImage`. Subprocesses, the file system and the JSON decoder are its inputs (a `World` value and a `loads` function). It returns the handler's response or error together with the list of external runs it issued. `Pipeline.Render` gives the exact argument vector or shell line of each run.

Supporting modules:

- `Text`: Python's `str(int)` and `str.join`, with the parsers and `str.split(' ')` reader that invert them.
- `Ordering`: Python's string order, and the in-place sort `list.sort()` performs.
- `Http`: the `HTTPException` value and its `str()`.

Every failure of the handler ends in status 500. An `HTTPException` raised inside the `try` block is caught by `except Exception` and raised again with `str(e)` as its detail. `str(e)` is `"500: <detail>"`. So those details read, for example, `"500: Error: <stderr>"`. A `JSONDecodeError` is answered with its own fixed message. An `IndexError` from an index past the end gives the detail `"list index out of range"`. A `KeyError` from a missing key gives the quoted key name.

With no panel files, no rounds run and the PSD line is still issued. It then reads `"magick  \( …"`: cut at single spaces (`str.split(' ')`), it has an empty piece between the two spaces. The outcome depends on that command's exit code.

## Model

| member | source | states |
|---|---|---|
| Items.ItemTable.constructor | app/routers/items.py:13-15 | the table starts with exactly the one sample record (id 1, "Sample", "A sample item") |
| Items.ItemTable.ListItems | app/routers/items.py:18-20 | listing returns the whole table, unchanged |
| Items.FirstWithId | app/routers/items.py:25-27 | the result is the position of the first record with the id; it is absent exactly when no record has the id |
| Items.LookupById | app/routers/items.py:23-28 | a found record is the first record of the table with the requested id; 404 "Item not found" is raised if and only if no record has the id |
| Items.ItemTable.GetItem | app/routers/items.py:23-28 | the scan in table order returns exactly the first-match lookup, and changes nothing |
| Items.ItemTable.CreateItem | app/routers/items.py:31-34 | the record is appended at the end, everything before it is unchanged, the answer is 201 with the record itself |
| Items.LookupAfterAppend | app/routers/items.py:25-28 | after an append, an earlier match still wins; otherwise the new record is found when it has the id; otherwise 404 |
| Items.CreateThenGetSucceeds | app/routers/items.py:23-34 | after `create_item(it)`, `get_item(it.id)` finds a record |
| Items.DuplicateIdKeepsEarlier | app/routers/items.py:25-33 | creating a record whose id is already taken does not change what `get_item` returns for that id |
| Pipeline.RegularFiles | app/main.py:48-49 | the panel list holds each name exactly as often as the listing has it as a regular file, and nothing else; it is no longer than the listing |
| Pipeline.PanelOrder | app/main.py:48-50 | the list the loop walks is sorted and holds each regular file of the listing exactly as often as it is listed |
| Ordering.LessEq | app/main.py:50 | in Python's string order a prefix sorts no later, and when the first characters differ the smaller code point sorts first |
| Ordering.LessEqFirstDifference | app/main.py:50 | at the first position where two strings differ, the one with the smaller code point there sorts first |
| Ordering.ProperPrefixFirst | app/main.py:50 | a proper prefix sorts strictly before the longer string |
| Ordering.LessEqTotal | app/main.py:50 | Python's string order compares any two strings |
| Ordering.LessEqAntisymmetric | app/main.py:50 | two strings that each sort no later than the other are equal |
| Ordering.LessEqTransitive | app/main.py:50 | Python's string order is transitive |
| Ordering.SortedCopy | app/main.py:50 | the sorted list is ordered and is a permutation of its input |
| Ordering.SortedUnique | app/main.py:50 | two sorted permutations of the same list are equal, so the sort result does not depend on the listing order |
| Ordering.SortInPlace | app/main.py:50 | `list.sort()` rearranges the array in place into the sorted permutation of its old contents |
| Pipeline.SortedPanelFiles | app/main.py:48-50 | the panel list is sorted and holds exactly the regular files of the listing, each as often as listed |
| Text.NatToString | app/main.py:60 | the decimal text of a natural number is non-empty, made of digits, starts with `0` only for zero and never has a leading zero |
| Text.IntToString | app/main.py:63 | `str()` of an integer starts with `-` exactly when it is negative, and its magnitude is digits without a leading zero |
| Text.ParseNatToString | app/main.py:60 | reading back the decimal text of a natural number gives the number |
| Text.ParseIntToString | app/main.py:63 | reading back `str()` of any integer, negative ones included, gives the integer |
| Text.ParseNatCanonical | app/main.py:60 | the number reader accepts only the text `str(n)` writes: whatever reads as `n` is exactly `str(n)` |
| Text.ParseIntCanonical | app/main.py:63 | the integer reader accepts only the text `str(z)` writes, so no leading zero and no `-0` |
| Text.NatToStringInjective | app/main.py:60 | different numbers have different decimal texts |
| Text.SplitJoin | app/main.py:72 | splitting the join of a non-empty list of separator-free pieces gives the pieces back |
| Text.SplitJoinThen | app/main.py:71-73 | splitting the join of a non-empty list of separator-free pieces, followed by a separator and more text, gives the pieces, then the split of the rest |
| Text.JoinEnds | app/main.py:72 | `sep.join(parts)` starts with the first part, then the separator when there are more parts, and ends with the last part |
| Text.JoinConcat | app/main.py:71-73 | joining two non-empty lists equals joining each and putting one separator between them |
| Pipeline.IntermediateFilesDistinct | app/main.py:60-63 | no two rounds share a `panel{i}.png` or a `formatted_panel{i}.png`, and no name is of both kinds |
| Pipeline.PanelFile | app/main.py:60 | `panel{i}.png` has the `panel` prefix and the `.png` extension, and what lies between them reads back as `i`; since only `str(i)` reads back as `i`, the name is fixed exactly |
| Pipeline.FormattedFile | app/main.py:63 | `formatted_panel{i}.png` has its prefix and extension, and what lies between them reads back as `i`, which fixes the name exactly |
| Pipeline.SizeArg | app/main.py:63 | the canvas size argument `"{w}x{h}"` reads back as the page size |
| Pipeline.GeometryArg | app/main.py:63 | the placement argument `"+{x}+{y}"` reads back as the panel position, negative coordinates included |
| Pipeline.SizeArgExact | app/main.py:63 | any text that reads back as the page size `(w, h)` is exactly `"{w}x{h}"` |
| Pipeline.GeometryArgExact | app/main.py:63 | any text that reads back as the position `(x, y)` is exactly `"+{x}+{y}"` |
| Pipeline.Render | app/main.py:33-77 | only the PSD run goes through the shell; every other run is an argument vector naming `python3` or `magick` first; the copy names `panel{i}.png` last and the canvas command names `formatted_panel{i}.png` last |
| Pipeline.PsdCommand | app/main.py:70-74 | the PSD shell line starts with `magick ` and ends with a space and the fixed tail, for any number of panels |
| Http.ExceptionText | app/main.py:90-91 | `str()` of an `HTTPException` is the status, which reads back from before `": "` and so is exactly `str(status)`, then `": "`, then the detail unchanged |
| Pipeline.CanvasArguments | app/main.py:59-64 | the copy of round i writes `panel{i}.png`; the canvas command of round i has eleven arguments, reads that same file, its size and geometry read back as the given page size and position, and it writes `formatted_panel{i}.png` |
| Pipeline.NoSpaceInFormattedFile | app/main.py:72 | a canvas file name has no space, so it stays one piece of the line between spaces |
| Pipeline.PsdCommandIsJoin | app/main.py:70-74 | the PSD shell line is `magick`, the canvases and the fixed tail joined by single spaces; with no panels an empty piece stands for the empty join |
| Pipeline.PsdCommandWords | app/main.py:70-74 | the pieces of the PSD shell line between single spaces (`str.split(' ')`) are `magick`, the canvases in round order (or one empty piece when there are none), then the pieces of the fixed tail |
| Pipeline.PsdPieceAt | app/main.py:72 | piece j+1 of the PSD line is `formatted_panel{j}.png` |
| Pipeline.PsdStacksCanvasesInOrder | app/main.py:63-74 | piece j+1 of the PSD shell line between single spaces is the very file the canvas command of round j writes |
| Pipeline.PanelSteps | app/main.py:59-64 | k rounds of the panel loop issue exactly 2k commands |
| Pipeline.PanelStepAt | app/main.py:59-64 | command 2i is round i's copy of the i-th sorted file; command 2i+1 draws it with the page size and the i-th geometry entry |
| Pipeline.ExtraGeometryIgnored | app/main.py:59-63 | geometry entries beyond the number of panel files are never read and do not change the commands |
| Pipeline.FirstUnready | app/main.py:59-63 | when some round cannot index size or geometry, the first such round is found, and every earlier round could |
| Pipeline.FirstUnreadyIsFirst | app/main.py:59-63 | the first round that cannot index is exactly the one `FirstUnready` names |
| Pipeline.DrawPanels | app/main.py:59-64 | the loop completes if and only if every round can index size and geometry, and then issues all rounds' commands; otherwise it stops with the copy command of the first failing round |
| Pipeline.ProcessImage | app/main.py:27-91 | every failure is status 500; the commands issued and the error of each stage (segmenter exit code, JSON decoding, missing directory, empty output, missing `size` or `panels` key, index error in the loop, PSD exit code); on success the response carries the size and the sorted panel files, a permutation of the directory's regular files |

## Left out

- Running the external programs (Kumiko, ImageMagick, the shell): their completions are inputs and the model records the commands issued. The images they read and write, and what ImageMagick does with pixels, are not modelled.
- `subprocess.run` itself raising, for example when `python3` or `magick` is not installed: the model assumes each command starts.
- The exit codes of the per-panel `magick` commands (app/main.py:61, 64): the handler ignores them, so they are not inputs.
- The shell's reading of the PSD line (app/main.py:77): how `/bin/sh` splits it into arguments, collapsing runs of blanks, and how it reads `\(` and `\)`. The model gives the line as the handler builds it, and its pieces between single spaces.
- `os.path.abspath`, `os.path.exists`, `os.listdir`, `os.path.isfile`: the directory's existence and its listing with each entry's file flag are inputs. `os.path.join(output_dir, name)` is written as the directory, "/", and the name.
- JSON decoding: `loads` is an input that either fails or yields a list of records. A record is reduced to its `size` and `panels` keys, and their values to integers. A top-level JSON value that is not a list, and values of other JSON types, are not modelled.
- The `print` call at app/main.py:69 and the success dictionary's serialisation: the response is a value.
- `HTTPException.__str__` comes from the framework and is taken to be `"<status>: <detail>"`.
- Pydantic validation of request bodies and responses, the FastAPI app set-up, CORS middleware and router registration (app/main.py:13-25). These belong to the framework.
- app/routers/n8n_processor.py, imageEncoder.py and app/hackHarvard.py are not part of this model.
- Concurrency: the item table is modelled as one object with no concurrent requests.
