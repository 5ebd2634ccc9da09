/** The encoding catalog and the pass-through converter: only UTF-8 and
    UTF-8 with a byte-order mark are supported, and converting between them
    copies bytes unchanged. */
module Encodings {
  import opened Base

  datatype Encoding = Encoding(displayLabel: string, canonical: string)

  /** `Encodings`: the encodings offered first, and all of them. */
  datatype Catalog = Catalog(preferred: seq<Encoding>, all: seq<Encoding>)

  const UTF8: Encoding := Encoding("UTF-8", "UTF-8")
  const UTF8_BOM: Encoding := Encoding("UTF-8 BOM", "UTF-8 BOM")

  /** `get_available_encodings`: the static catalog `ENCODINGS`. */
  function GetAvailableEncodings(): (c: Catalog) {
    Catalog([UTF8, UTF8_BOM], [UTF8, UTF8_BOM])
  }

  /** The names `Converter::new` accepts, on either side. */
  predicate IsSupported(name: string) {
    name == "UTF-8" || name == "UTF-8 BOM"
  }

  /** The catalog lists exactly the encodings the converter accepts, each
      once, under a label equal to its canonical name, and the preferred
      list is the whole list. */
  lemma CatalogMatchesConverter(name: string)
    ensures IsSupported(name) <==> exists e :: e in GetAvailableEncodings().all && e.canonical == name
    ensures GetAvailableEncodings().preferred == GetAvailableEncodings().all
    ensures forall e :: e in GetAvailableEncodings().all ==> e.displayLabel == e.canonical
    ensures |GetAvailableEncodings().all| == 2 && UTF8 != UTF8_BOM
  {
    if IsSupported(name) {
      var e := if name == "UTF-8" then UTF8 else UTF8_BOM;
      assert e in GetAvailableEncodings().all && e.canonical == name;
    }
  }

  /** `Converter`: bound to a validated encoding pair; holds no state. The
      pivot buffer of the real transcoder is not used and not modelled. */
  class Converter {

    constructor ()
    {
    }

    /** `Converter::new`: succeeds exactly when both names are supported,
        and otherwise fails with ICU code 16 (`U_UNSUPPORTED_ERROR`). */
    static method New(sourceEncoding: string, targetEncoding: string) returns (r: Result<Converter>)
      ensures r.Ok? <==> IsSupported(sourceEncoding) && IsSupported(targetEncoding)
      ensures r.Err? ==> r.error == Icu(U_UNSUPPORTED_ERROR)
    {
      if (sourceEncoding == "UTF-8" || sourceEncoding == "UTF-8 BOM")
        && (targetEncoding == "UTF-8" || targetEncoding == "UTF-8 BOM")
      {
        var c := new Converter();
        r := Ok(c);
      } else {
        r := Err(Icu(U_UNSUPPORTED_ERROR));
      }
    }

    /** `Converter::convert`: copies the first `n = min(|input|, output.Length)`
        bytes into `output`, leaves the rest of `output` alone, never fails,
        and reports `n` bytes consumed and `n` produced. */
    method Convert(input: seq<byte>, output: array<byte>) returns (r: Result<(nat, nat)>)
      modifies output
      ensures var n := if |input| < output.Length then |input| else output.Length;
        && r == Ok((n, n))
        && output[..n] == input[..n]
        && output[n..] == old(output[n..])
    {
      var len := if |input| < output.Length then |input| else output.Length;
      forall i | 0 <= i < len {
        output[i] := input[i];
      }
      r := Ok((len, len));
    }
  }
}
