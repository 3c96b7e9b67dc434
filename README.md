# TkImageConvert: the module generator, in Dafny

TkImageConvert is a small tkinter program. It turns image files into a Python
module. The user picks files with `browse`, and each file is listed under the
last component of its path. `calculate` then reads every listed file as bytes
and encodes it with `base64.encodestring`. It wraps each encoding in an entry
`"name": """\n<payload>""",`, joins the entries with line breaks, and puts the
result in the `{}` of `TEMPLATE` with `str.format`. The module it writes holds
an `IMAGES` dict and a small viewer.

This project models that core and proves properties of it:

- `base64_mime.dfy` (module `Base64Mime`): the byte-to-text step of
  `convert_to_b64`.
  - It uses the alphabet and padding of section 4 of RFC 4648.
  - It cuts the input into 57-byte chunks and gives each chunk one line of at
    most 76 characters, ended by a line break, as in section 6.8 of RFC 2045.
  - A decoder is included as the reference inverse.
- `text.dfy` (module `Text`): character search, splitting into lines,
  dropping line breaks, and Python's `'\n'.join`.
- `template_text.dfy` and `module_template.dfy` (modules `TemplateText` and
  `ModuleTemplate`):
  - `TEMPLATE`, written line by line;
  - `str.format` with one positional argument;
  - a reader that takes the `IMAGES` body back out of a generated module.
- `images_display.dfy` (module `ImagesDisplay`):
  - the entry f-string and the joined body;
  - a reader for such a body;
  - the dict a Python display evaluates to, where a later duplicate key wins.
- `image_convert.dfy` (module `ImageConvert`):
  - `convert_to_b64` (the branch without PIL), over a map from path to file
    contents;
  - the `Gui` class, whose fields are the `files` list and the names its list
    box shows;
  - `Browse`, which appends in place;
  - `Calculate`, which loops over the files and is proved equal to the
    specification function `Generate`.

The main results (for the branch without PIL, with writing the output file left aside):

- `encodestring` output decodes back to the bytes, has the RFC 2045 line
  layout, and never contains a quote or backslash.
- `TEMPLATE.format(body)` never fails. It gives the template with `{{`/`}}`
  turned into single braces and `body` in place of `{}`.
- `calculate` fails exactly when a listed file cannot be read, and names the
  first such file.
- End to end: when the names hold no quote, backslash or line break, the
  generated module's `IMAGES` display holds one entry per listed file, in
  order. Each entry's value decodes to that file's bytes. In the resulting
  dict, the file listed last under a given name wins.

## Model

| member | source | states |
|---|---|---|
| Text.JoinLines | imageconvert.py:207 | Python's `'\n'.join`: one line break between neighbours, so with one more break at the end it is the strings each followed by a line break (Unlines) |
| Text.JoinLinesSplit | imageconvert.py:207 | splitting the join at its line breaks gives back exactly the joined strings, when none of them holds a line break |
| Base64Mime.EncodeGroup | imageconvert.py:99 | a group of one to three bytes becomes exactly four alphabet or pad characters |
| Base64Mime.GroupRoundTrip | imageconvert.py:99 | decoding an encoded group gives back its bytes: a full group anywhere, a padded one when it is last |
| Base64Mime.Encode | imageconvert.py:99 | the unbroken base64 text has 4 characters per started group of 3 bytes |
| Base64Mime.EncodeAlphabet | imageconvert.py:99 | the unbroken base64 text holds only alphabet characters and pads |
| Base64Mime.DecodeEncode | imageconvert.py:99 | decoding the unbroken base64 text gives back exactly the input bytes |
| Base64Mime.EncodeAppend | imageconvert.py:99 | encoding splits at any group boundary: Encode(a + c) is Encode(a) followed by Encode(c) when the length of a is a multiple of 3 |
| Base64Mime.EncodeMime | imageconvert.py:99-100 | encodestring text is empty exactly for empty input and otherwise ends with a line break |
| Base64Mime.MimeAlphabet | imageconvert.py:99-100 | encodestring text holds only alphabet characters, pads and line breaks |
| Base64Mime.MimeWithoutBreaks | imageconvert.py:99-100 | removing the line breaks of encodestring text gives the unbroken base64 of the same bytes |
| Base64Mime.MimeRoundTrip | imageconvert.py:99-100 | decoding encodestring text (line breaks ignored) gives back exactly the file's bytes |
| Base64Mime.MimeLayout | imageconvert.py:99-100 | one line per started 57-byte chunk; every line non-empty and at most 76 characters long; all lines but the last exactly 76 |
| Base64Mime.MimeHasNoQuote | imageconvert.py:99-100 | encodestring text holds no double quote and no backslash, so it cannot end or escape the triple-quoted literal it is placed in |
| TemplateText.HeaderLinesNoBraces | imageconvert.py:59-64 | the template lines before the IMAGES display hold no brace |
| TemplateText.FooterLinesNoBraces | imageconvert.py:68-85 | the template lines after the IMAGES display hold no brace |
| ModuleTemplate.HeaderNoBraces | imageconvert.py:59-64 | the template text before the display, line breaks included, holds no brace |
| ModuleTemplate.FooterNoBraces | imageconvert.py:68-86 | the template text after the display, line breaks included, holds no brace |
| ModuleTemplate.FormatFrom | imageconvert.py:207 | the left-to-right scan of str.format with one argument: `{{` and `}}` give one brace, `{}` gives the argument once, any other brace is an error; the text grows by at most the argument's length, since the argument goes in at most once |
| ModuleTemplate.Format | imageconvert.py:207 | template.format(arg): the scan from the start, with the argument not yet used; a template without braces formats to itself |
| ModuleTemplate.FormatPlain | imageconvert.py:207 | str.format copies text without braces unchanged and goes on with the rest |
| ModuleTemplate.FormatAroundHole | imageconvert.py:65-67 | formatting a brace-free head, the IMAGES hole and a brace-free foot succeeds and keeps head and foot verbatim |
| ModuleTemplate.FormatTemplate | imageconvert.py:207 | TEMPLATE.format(body) never fails and gives the module with `IMAGES = {`, body, `}` between the unchanged header and footer |
| ModuleTemplate.ImagesOfRendered | imageconvert.py:65-67 | the IMAGES body can be read back out of the generated module, and it is exactly the body that was put in |
| ImagesDisplay.Entry | imageconvert.py:205 | the f-string: `"` + name + `": """` + a line break + payload + `""",`; nothing is escaped or checked, so its length is that of name and payload plus the 12 characters around them |
| ImagesDisplay.Body | imageconvert.py:207 | `'\n'.join(b64_data)`: the entries of the pairs, in order, joined by line breaks; empty exactly when there are no files |
| ImagesDisplay.EntryLines | imageconvert.py:205 | an entry spans its name line, the payload's own lines, and a closing line |
| ImagesDisplay.ParseEntryOfEntry | imageconvert.py:205 | an entry reads back as its name, the value `"\n" + payload` of its triple-quoted literal, and the text after it |
| ImagesDisplay.ParseBodyOfBody | imageconvert.py:204-207 | when names and payloads are safe inside literals, the joined body holds exactly the given pairs, in order, duplicates kept |
| ImagesDisplay.DictOf | imageconvert.py:65-67 | the dict the display evaluates to: the pairs inserted in order, a later key replacing the value of an earlier one; at most one key per entry |
| ImagesDisplay.DictOfLastWins | imageconvert.py:65-67 | the IMAGES dict has exactly the listed names as keys; a name's value is that of its last entry |
| ImageConvert.ConvertToB64 | imageconvert.py:98-100 | reading fails exactly when the path is missing; otherwise the text decodes back to the file's bytes |
| ImageConvert.EncodeAll | imageconvert.py:202-205 | the b64_data loop: the entry of each listed file in list order, stopped by the first file that cannot be read; when it completes it holds one entry per file |
| ImageConvert.Generate | imageconvert.py:202-207 | the text calculate writes, TEMPLATE.format of the joined entries; it fails exactly when the loop fails, and then with the loop's error, since the format step cannot fail |
| ImageConvert.EncodeAllErrorStays | imageconvert.py:203-205 | once a file cannot be read, the loop ends with that error, whatever follows |
| ImageConvert.EncodeAllSpec | imageconvert.py:202-205 | b64_data is complete exactly when every listed file can be read; it then holds each file's entry in list order; otherwise the error names the first unreadable file |
| ImageConvert.GenerateSpec | imageconvert.py:202-207 | calculate succeeds exactly when every file can be read, and writes TEMPLATE with the joined entries in the display; a format error never happens |
| ImageConvert.GeneratedImages | imageconvert.py:202-207 | end to end: the generated IMAGES display holds one entry per listed file, in order, under its name, decoding to the file's bytes |
| ImageConvert.StoredValueDecodes | imageconvert.py:205 | the line break that opens each triple-quoted value does not change what it decodes to |
| ImageConvert.GeneratedDict | imageconvert.py:202-207 | every listed name is a key of the generated IMAGES dict; for a name listed more than once, the last file wins |
| ImageConvert.Gui.constructor | imageconvert.py:156 | the window starts with no files and an empty list box |
| ImageConvert.Gui.Browse | imageconvert.py:188-195 | appends (normalised path, last path component) for each chosen file, in order, to files and the name to the list box; a cancelled dialog changes nothing |
| ImageConvert.Gui.Calculate | imageconvert.py:197-207 | gives nothing when the user declines to overwrite; otherwise gives exactly Generate(files, disk), by a loop over the files that stops at the first unreadable one |

## Left out

- The PIL branch of `convert_to_b64` (lines 90-96): opening, resizing and re-saving the image as GIF is image processing, which is not modelled. Only the raw-bytes branch is.
- `base64.encodestring` is modelled with the behaviour it shares with `base64.encodebytes`. Its deprecation, and its removal in later Python versions, are not modelled.
- `.decode()` of the encoded bytes is the identity, because the encoder already produces ASCII characters.
- `os.path.normpath` and `os.path.split(fn)[1]` are the parameters `normpath` and `tail` of `Gui.Browse`. Path syntax is not modelled.
- The file dialog and its file types are left out: the chosen names are a parameter of `Gui.Browse`.
- The file system is a map from path to bytes. "Cannot be read" means "not in the map"; other I/O errors are not modelled.
- The output file's existence check and the overwrite question (lines 198-200) are the two boolean parameters of `Gui.Calculate`. Writing the output file, the success and error message boxes, and the re-raise are left out: `Calculate` returns the text it would write.
- `str.format` is modelled only as far as `TEMPLATE` needs: `{{`, `}}`, `{}` and the brace errors. Named or numbered fields, conversions and format specs all give `UnsupportedField`.
- The decoder and the module reader are reference inverses, stricter than Python's. The decoder rejects characters that Python's lenient decoder would skip. The reader accepts only literals without quotes or backslashes.
- ImagesDisplay.ParseBodyOfBody requires names without quote, backslash or line break, because names are not escaped. A `"` in a name ends the key literal early, and the rest of the name is read as Python source. That is usually a syntax error, but it can also be a valid module with another key (the name `a" "b.gif` gives the key `ab.gif`, because adjacent literals are concatenated) or with code taken from the name. A line break (`\n` or `\r`) in a name is a syntax error. A trailing `\` escapes the closing quote, so the rest of the entry is misread, which is usually a syntax error too. A recognised escape such as `\n`, `\t` or `\\` changes the key, and a malformed one such as `\x` without two hex digits is a syntax error. An unrecognised escape such as `\p` is kept verbatim by Python, but the requirement excludes every backslash so that the read-back can be stated exactly.
- ImageConvert.GeneratedImages has the same requirement on names, for the same reason.
- ImageConvert.GeneratedDict has the same requirement on names, for the same reason.
- `pip_install_popup`, `ScrolledListbox`, `helpdisp`, the window layout and `main` are user interface, outside the core.
- What the generated module does when run (`load_image`, the viewer window) is not modelled. Only its text is.
