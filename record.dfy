/** The engine's sentence record and its fixed sizes. */
module Record {

  /** At most 82 characters per sentence, start character and CR LF included;
      the framer's buffer holds one more for the terminating NUL. */
  const NmeaBufferSize := 82
  /** The largest sentence, MDA, has 21 fields. */
  const MaxNmeaFields := 21
  /** Capacity of the sentence stack. */
  const StackSize := 5
  const NmeaTerminator := "\r\n"

  /** `NMEAData`: the fixed array of field strings, how many of them the
      sentence populates (a byte, at most 21), and the rebuilt sentence text. */
  datatype NMEAData = NMEAData(fields: seq<string>, nrOfFields: nat, sentence: string)

  /** The record's shape as C declares it: exactly 21 field slots. */
  predicate WellFormed(d: NMEAData)
  {
    |d.fields| == MaxNmeaFields && d.nrOfFields <= MaxNmeaFields
  }

  /** 21 empty field slots. */
  function EmptyFields(): (r: seq<string>)
    ensures |r| == MaxNmeaFields && forall i :: 0 <= i < |r| ==> r[i] == ""
  {
    seq(MaxNmeaFields, _ => "")
  }

  /** A default-constructed `NMEAData`: every field "", no fields, sentence "". */
  function EmptyRecord(): (r: NMEAData)
    ensures WellFormed(r) && r.fields == EmptyFields() && r.nrOfFields == 0 && r.sentence == ""
  {
    NMEAData(EmptyFields(), 0, "")
  }

  /** The characters that open a sentence: '$' (general), '!' (AIS), '~' (reserved). */
  predicate IsStart(c: char)
  {
    c == '$' || c == '!' || c == '~'
  }
}
