/** The file path `send_file` opens, built with `snprintf` into a BUFFER_SIZE buffer
    from the path the router hands over (the request from "static/" on). */
module StaticPath {
  import opened Bytes

  /** STATIC_DIR. */
  const StaticDir: Bytes := "./static"

  /** The longest path `snprintf(file_path, BUFFER_SIZE, ...)` can hold besides its NUL. */
  const PathMax: nat := BufferSize - 1

  /** The path as the server builds it: STATIC_DIR followed by the C string at
      `path + 7`, truncated by `snprintf`. No separator is put in between, and the
      copy runs to the terminator, through the rest of the request line. */
  function FilePath(path: Bytes): (r: Bytes)
    requires |path| >= 7
    ensures |r| <= PathMax
    ensures StartsWith(r, StaticDir)
    ensures StartsWith(path[7..], r[|StaticDir|..]) && NUL !in r[|StaticDir|..]
    ensures |r| < PathMax ==> |r| - |StaticDir| == |path| - 7 || path[7 + |r| - |StaticDir|] == NUL
  {
    var copied := CString(path[7..]);
    var full := StaticDir + copied;
    var r := Truncate(full, PathMax);
    assert r[..|StaticDir|] == StaticDir;
    assert r[|StaticDir|..] == copied[..|r| - |StaticDir|];
    r
  }

  /** On a real request line, the path is STATIC_DIR glued to the file name, with
      the blank and everything up to the end of the received data still attached. */
  lemma FilePathOfRequest(name: Bytes, tail: Bytes)
    requires NUL !in name
    requires |name| + |tail| < PathMax - |StaticDir|
    ensures FilePath("static/" + name + " " + tail) == StaticDir + name + " " + CString(tail)
  {
    var path := "static/" + name + " " + tail;
    assert path[7..] == (name + " ") + tail;
    assert NUL !in name + " ";
    UntilAppend(name + " ", tail, NUL);
  }

  /** The path as built never is the intended one: on "GET /static/index.html HTTP/1.1"
      the server opens "./staticindex.html HTTP/1.1" instead of "./static/index.html".
      The byte after STATIC_DIR is the file name's first byte, where `/` belongs. */
  lemma FilePathMissesSeparator(name: Bytes, tail: Bytes)
    requires NUL !in name && ' ' !in name
    requires name != [] && name[0] != '/'
    requires |name| + |tail| < PathMax - |StaticDir|
    ensures FilePath("static/" + name + " " + tail) != FixedFilePath("static/" + name + " " + tail)
  {
    var path := "static/" + name + " " + tail;
    FilePathOfRequest(name, tail);
    FixedFilePathOfRequest(name, tail);
    assert FilePath(path)[|StaticDir|] == name[0];
    assert FixedFilePath(path)[|StaticDir|] == '/';
  }

  /** The path the server evidently means to open: STATIC_DIR, the `/` that follows
      "static" in the request, and the request target up to the blank before the
      HTTP version. */
  function FixedFilePath(path: Bytes): Bytes
    requires |path| >= 7
  {
    Truncate(StaticDir + Until(CString(path[6..]), ' '), PathMax)
  }

  /** On a request line `GET /static/<name> <version>`, the corrected path is exactly
      `./static/<name>`. */
  lemma FixedFilePathOfRequest(name: Bytes, tail: Bytes)
    requires NUL !in name && ' ' !in name
    requires |name| < PathMax - |StaticDir|
    ensures FixedFilePath("static/" + name + " " + tail) == StaticDir + "/" + name
  {
    var path := "static/" + name + " " + tail;
    var lead: Bytes := "/" + name;
    var rest: Bytes := " " + tail;
    assert path[6..] == lead + rest;
    assert NUL !in lead && ' ' !in lead;
    UntilAppend(lead, rest, NUL);
    var restC: Bytes := " " + CString(tail);
    assert CString(rest) == restC by {
      UntilAppend(" ", tail, NUL);
    }
    UntilAppend(lead, restC, ' ');
    assert Until(restC, ' ') == [] by {
      UntilUnique(restC, ' ', 0);
    }
    assert Until(CString(path[6..]), ' ') == lead;
  }
}
