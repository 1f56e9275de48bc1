/**
 * The JSON scan output of driftctl (pkg/cmd/scan/output/json.go): where the
 * report goes, and whether informational messages are printed beside it.
 */
module JsonOutput {
  import opened Wrappers

  const JsonOutputType := "json"
  const JsonOutputExample := "json://PATH/TO/FILE.json"

  /** output.VoidPrinter prints nothing; output.ConsolePrinter prints to the console. */
  datatype Printer = VoidPrinter | ConsolePrinter

  /** Where Write sends the report. */
  datatype Destination = Stdout | File(path: string)

  datatype Json = Json(path: string)
  {
    predicate IsStdOut()
    {
      path == "/dev/stdout" || path == "stdout"
    }

    /** Informational messages are silenced when the report itself goes to
        standard output, so that the stream holds only the document. */
    function GetInfoPrinter(): (p: Printer)
      ensures p == VoidPrinter <==> IsStdOut()
      ensures p == ConsolePrinter <==> !IsStdOut()
    {
      if IsStdOut() then VoidPrinter else ConsolePrinter
    }

    /** The destination of Write: standard output, or the file at path,
        which is opened (created when missing); openError is the failure the
        open reports, if any.  A failed open is returned as the error and
        nothing is written. */
    method Write(openError: Option<string>) returns (written: Option<Destination>, err: Option<string>)
      ensures IsStdOut() ==> written == Some(Stdout) && err == None
      ensures !IsStdOut() && openError.Some? ==> written == None && err == openError
      ensures !IsStdOut() && openError.None? ==> written == Some(File(path)) && err == None
    {
      var file := Stdout;
      if !IsStdOut() {
        if openError.Some? {
          return None, openError;
        }
        file := File(path);
      }
      return Some(file), None;
    }
  }

  /** NewJSON */
  function NewJson(path: string): (c: Json)
    ensures c.path == path
  {
    Json(path)
  }

  /** The cases of the printer test: a file path keeps the console printer,
      both spellings of standard output silence it. */
  lemma GetInfoPrinterCases()
    ensures NewJson("/path/to/file").GetInfoPrinter() == ConsolePrinter
    ensures NewJson("stdout").GetInfoPrinter() == VoidPrinter
    ensures NewJson("/dev/stdout").GetInfoPrinter() == VoidPrinter
  {
  }
}
