/**
  `white::HttpResponse`: fills the write buffer and maps the file, proved against
  `ResponseSpec`.
 */
module HttpResponses {
  import opened Strings
  import opened Buffers
  import opened ResponseSpec

  class HttpResponse {
    var responseCode: int
    var isKeepAlive: bool
    var path: string
    var srcDir: string
    var version: string
    var indexFile: seq<string>
    /** The mapped file, if there is one, and the size that `stat` reported last. */
    var file: Option<string>
    var fileSize: nat
    /** `kSuffixType`. */
    const suffixType: map<string, string>

    constructor (suffixType: map<string, string>)
      ensures file == None && this.suffixType == suffixType
    {
      responseCode, isKeepAlive := -1, true;
      path, srcDir, version, indexFile := "", "", "", [];
      file, fileSize := None, 0;
      this.suffixType := suffixType;
    }

    /** `false`, with nothing changed, where the source throws. */
    method Init(srcDir: string, path: string, indexFile: seq<string>, version: string, isKeepAlive: bool, code: int)
      returns (ok: bool)
      modifies this
      ensures ok == (srcDir != "")
      ensures ok ==> Asked() == Question(srcDir, path, indexFile, version, isKeepAlive, code) && file == None
      ensures !ok ==> unchanged(this)
    {
      if srcDir == "" {
        return false;
      }
      if file.Some? {
        Unmap();
        fileSize := 0;
      }
      this.srcDir, this.path, this.version, this.indexFile := srcDir, path, version, indexFile;
      this.isKeepAlive, responseCode := isKeepAlive, code;
      return true;
    }

    method Unmap()
      modifies this`file
      ensures file == None
    {
      file := None;
    }

    predicate HasFile()
      reads this
    {
      file.Some?
    }

    function FileSize(): int
      reads this
    {
      ToInt(fileSize)
    }

    ghost function Asked(): Question
      reads this
    {
      Question(srcDir, path, indexFile, version, isKeepAlive, responseCode)
    }

    method AddCustomHeader(buff: Buffer, key: string, value: string)
      requires buff.Valid()
      modifies buff
      ensures buff.Valid() && buff.Contents() == old(buff.Contents()) + (key + ": " + value + "\r\n")
    {
      buff.Append(key + ": " + value + "\r\n");
    }

    /** The buffer holds `before` and then `lines`. */
    ghost predicate Wrote(buff: Buffer, before: string, lines: seq<string>)
      reads buff
    {
      buff.Valid() && buff.Contents() == before + LinesText(lines)
    }

    method AddLine(buff: Buffer, line: string, ghost before: string, ghost lines: seq<string>)
      requires Wrote(buff, before, lines)
      modifies buff
      ensures Wrote(buff, before, lines + [line])
    {
      OneLine(line);
      LinesTextAppend(lines, [line]);
      Assoc(before, LinesText(lines), LinesText([line]));
      buff.Append(line + "\r\n");
    }

    /** Index files, existence and permission decide the path and the code. */
    method ResolvePath(env: Environment)
      requires WantsFile(responseCode) ==> path != ""
      modifies this`path, this`responseCode, this`fileSize
      ensures (path, responseCode) == Resolve(old(responseCode), srcDir, old(path), indexFile, env)
      ensures WantsFile(responseCode) ==> srcDir + path in env.stat && fileSize == env.stat[srcDir + path].size
    {
      if WantsFile(responseCode) {
        if path[|path| - 1] == '/' {
          var i := 0;
          while i < |indexFile|
            invariant 0 <= i <= |indexFile|
            invariant path == old(path) && responseCode == old(responseCode)
            invariant FindIndex(srcDir + path, indexFile, env) == FindIndex(srcDir + path, indexFile[i..], env)
          {
            if srcDir + path + indexFile[i] in env.accessible {
              path := path + indexFile[i];
              responseCode := 301;
              break;
            }
            i := i + 1;
          }
        }
        var file := srcDir + path;
        if file in env.stat {
          fileSize := env.stat[file].size;
        }
        if file !in env.stat || env.stat[file].isDirectory {
          responseCode := 404;
        } else if !env.stat[file].othersRead {
          responseCode := 403;
        }
        // The source then tests for the code -1, which does not lead here.
      }
    }

    method AddStateLine(buff: Buffer, ghost before: string)
      requires Wrote(buff, before, [])
      modifies this`responseCode, buff
      ensures responseCode == if StatusText(old(responseCode)).None? then 400 else old(responseCode)
      ensures Wrote(buff, before, [StatusLine(version, responseCode)])
    {
      if StatusText(responseCode).None? {
        responseCode := 400;
      }
      var line := "HTTP/" + version + " " + PrintCode(responseCode) + " " + StatusText(responseCode).value;
      AddLine(buff, line, before, []);
      assert [] + [line] == [line];
    }

    /** The fields about the connection and the location. */
    method AddFirstHeaders(buff: Buffer, ghost before: string, ghost lines: seq<string>)
      requires Wrote(buff, before, lines)
      modifies this`isKeepAlive, buff
      ensures Wrote(buff, before, lines + FirstLines(responseCode, version, old(isKeepAlive), path))
    {
      if responseCode == 404 {
        isKeepAlive := false;
        AddLine(buff, "Connection: Close", before, lines);
      } else if responseCode == 301 {
        AddLine(buff, "Location: " + path, before, lines);
        AddConnection(buff, before, lines + ["Location: " + path]);
        Assoc(lines, ["Location: " + path], ConnectionLines(version, isKeepAlive));
      } else if WantsFile(responseCode) {
        AddConnection(buff, before, lines);
      } else {
        assert lines + [] == lines;
      }
    }

    method AddConnection(buff: Buffer, ghost before: string, ghost lines: seq<string>)
      requires Wrote(buff, before, lines)
      modifies buff
      ensures Wrote(buff, before, lines + ConnectionLines(version, isKeepAlive))
    {
      if !(version == "1.1" && isKeepAlive) {
        if isKeepAlive {
          var first, second := "Connection: keep-alive", "keep-alive: max=6, timeout=120";
          AddLine(buff, first, before, lines);
          AddLine(buff, second, before, lines + [first]);
          assert lines + [first] + [second] == lines + [first, second];
        } else {
          AddLine(buff, "Connection: Close", before, lines);
        }
      } else {
        assert lines + [] == lines;
      }
    }

    method AddHeader(buff: Buffer, ghost before: string, ghost lines: seq<string>)
      requires Wrote(buff, before, lines)
      modifies this`isKeepAlive, buff
      ensures Wrote(buff, before,
                    lines + HeaderLines(responseCode, version, old(isKeepAlive), path, FileType(responseCode, path, suffixType)))
    {
      ghost var first := FirstLines(responseCode, version, isKeepAlive, path);
      var mime := "Content-type: " + FileType(responseCode, path, suffixType);
      var cache, server := "Cache-Control: max-age=31536000", "Server: WhiteWebServer";
      AddFirstHeaders(buff, before, lines);
      AddLine(buff, mime, before, lines + first);
      if version == "1.1" {
        AddLine(buff, cache, before, lines + first + [mime]);
        AddLine(buff, server, before, lines + first + [mime] + [cache]);
        assert lines + first + [mime] + [cache] + [server] == lines + (first + [mime] + [cache] + [server]);
      } else {
        AddLine(buff, server, before, lines + first + [mime]);
        assert lines + first + [mime] + [server] == lines + (first + [mime] + [] + [server]);
      }
    }

    method AddHead(buff: Buffer, ghost before: string) returns (ghost head: seq<string>)
      requires buff.Valid() && buff.Contents() == before
      modifies this`responseCode, this`isKeepAlive, buff
      ensures responseCode == if StatusText(old(responseCode)).None? then 400 else old(responseCode)
      ensures head == Head(responseCode, version, old(isKeepAlive), path, FileType(responseCode, path, suffixType))
      ensures Wrote(buff, before, head)
    {
      assert before + "" == before;
      AddStateLine(buff, before);
      head := Head(responseCode, version, isKeepAlive, path, FileType(responseCode, path, suffixType));
      AddHeader(buff, before, [StatusLine(version, responseCode)]);
    }

    /** A Content-Length field and the blank line behind it, which the field's value carries along. */
    method AddLength(buff: Buffer, n: nat, ghost before: string, ghost head: seq<string>)
      requires Wrote(buff, before, head)
      modifies buff
      ensures buff.Valid() && buff.Contents() == before + (LinesText(head + [LengthLine(n)]) + "\r\n")
    {
      LengthText(n);
      OneLine(LengthLine(n));
      LinesTextAppend(head, [LengthLine(n)]);
      Assoc(before, LinesText(head), LengthLine(n) + "\r\n");
      Assoc(before + LinesText(head), LengthLine(n) + "\r\n", "\r\n");
      Assoc(before, LinesText(head + [LengthLine(n)]), "\r\n");
      AddCustomHeader(buff, "Content-Length", ToDecimal(n) + "\r\n");
    }

    /** A Content-Length field, the blank line, and a page. */
    method GenerateErrorContent(buff: Buffer, message: string, ghost before: string, ghost head: seq<string>)
      requires Wrote(buff, before, head)
      modifies buff
      ensures buff.Valid() && buff.Contents() == before + Wire(head, ErrorPage(responseCode, message))
    {
      var page := ErrorPage(responseCode, message);
      AddLength(buff, |page|, before, head);
      WireInParts(before, head, page);
      buff.Append(page);
    }

    method AddContent(buff: Buffer, env: Environment, ghost before: string, ghost head: seq<string>, ghost c: Content)
      requires Wrote(buff, before, head) && file == None
      requires c == ContentFor(responseCode, srcDir + path, env)
      modifies this`file, this`responseCode, buff
      ensures buff.Valid()
      ensures file == if c.File? then Some(c.bytes) else None
      ensures c.Page? ==> buff.Contents() == before + Wire(head, c.page)
      ensures c.File? ==> buff.Contents() == before + (LinesText(head + [LengthLine(fileSize)]) + "\r\n")
    {
      if !WantsFile(responseCode) {
        GenerateErrorContent(buff, "Cannot open specific file", before, head);
        return;
      }
      var name := srcDir + path;
      if name !in env.opens {
        responseCode := 500;
        GenerateErrorContent(buff, "Cannot open specific file", before, head);
        return;
      }
      if name !in env.maps {
        responseCode := 500;
        GenerateErrorContent(buff, "Cannot map specific file", before, head);
        return;
      }
      file := Some(env.maps[name]);
      AddLength(buff, fileSize, before, head);
    }

    /** The first half of `MakeResponse`, which settles what the second half adds. */
    method MakeHead(buff: Buffer, env: Environment) returns (ghost head: seq<string>, ghost content: Content)
      requires buff.Valid() && (WantsFile(responseCode) ==> path != "")
      modifies this`path, this`responseCode, this`fileSize, this`isKeepAlive, buff
      ensures Wrote(buff, old(buff.Contents()), head)
      ensures (head, content) == Respond(old(Asked()), suffixType, env)
      ensures content == ContentFor(responseCode, srcDir + path, env)
      ensures content.File? ==> srcDir + path in env.stat && fileSize == env.stat[srcDir + path].size
    {
      ghost var response := Respond(Asked(), suffixType, env);
      ResolvePath(env);
      head := AddHead(buff, buff.Contents());
      assert head == response.0;
      content := ContentFor(responseCode, srcDir + path, env);
    }

    /**
      Writes the head, and either a page behind it or nothing, the content then
      being the mapped file.  The status line is written before the file is opened.
     */
    method MakeResponse(buff: Buffer, env: Environment) returns (ghost head: seq<string>, ghost content: Content)
      requires buff.Valid() && file == None && Honest(env)
      requires WantsFile(responseCode) ==> path != ""
      modifies this`path, this`responseCode, this`fileSize, this`isKeepAlive, this`file, buff
      ensures buff.Valid()
      ensures (head, content) == Respond(old(Asked()), suffixType, env)
      ensures content.Page? ==> file == None && buff.Contents() == old(buff.Contents()) + Wire(head, content.page)
      ensures content.File? ==>
                && file == Some(content.bytes) && fileSize == |content.bytes|
                && buff.Contents() + content.bytes == old(buff.Contents()) + Wire(head, content.bytes)
    {
      ghost var before := buff.Contents();
      head, content := MakeHead(buff, env);
      AddContent(buff, env, before, head, content);
      WireInParts(before, head, Body(content));
    }
  }

  lemma WireInParts(before: string, head: seq<string>, body: string)
    ensures before + (LinesText(head + [LengthLine(|body|)]) + "\r\n") + body == before + Wire(head, body)
  {
    var text := LinesText(head + [LengthLine(|body|)]);
    Assoc(text, "\r\n", body);
    Assoc(before, text + "\r\n", body);
  }

  lemma LengthText(n: nat)
    ensures "Content-Length" + ": " + (ToDecimal(n) + "\r\n") + "\r\n" == LengthLine(n) + "\r\n" + "\r\n"
  {
    assert "Content-Length" + ": " == "Content-Length: ";
    Assoc("Content-Length: ", ToDecimal(n), "\r\n");
  }

  lemma {:induction false} LinesTextAppend(a: seq<string>, b: seq<string>)
    ensures LinesText(a + b) == LinesText(a) + LinesText(b)
    decreases |a|
  {
    if a == [] {
      assert a + b == b;
    } else {
      assert (a + b)[1..] == a[1..] + b;
      LinesTextAppend(a[1..], b);
    }
  }

  lemma OneLine(line: string)
    ensures LinesText([line]) == line + "\r\n"
  {
    assert [line][1..] == [];
    assert LinesText([line]) == line + "\r\n" + "";
  }
}
