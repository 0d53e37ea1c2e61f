/** The simulation service's messages: the same codec, with its own schemas. */
module SimulationMessages {
  import opened Basics
  import opened Varint
  import opened Messages
  import opened MessageLaws
  import opened Counting
  import opened Layout

  const SIMULATION_REQUEST: Schema := [TextKind, ArgsKind]
  const STEP_REQUEST: Schema := [TextKind, TextKind, ArgsKind]
  const STEP_RESPONSE: Schema := [TextKind, TextKind, TimeKind]

  /** A simulation request, byte for byte. */
  lemma SimulationRequestBytes(f: DurationFormat, simulation: bytes, args: map<bytes, bytes>, order: seq<bytes>)
    requires IsOrder(order, args)
    ensures Encode(f, [Text(simulation), Args(args)], order)
         == TextBytes(0x0a, simulation) + EntriesBytes(0x12, args, order)
  {
    SuiteRequestLayout(f, simulation, args, order);
  }

  /** A step request, byte for byte. */
  lemma StepRequestBytes(f: DurationFormat, simulation: bytes, step: bytes, args: map<bytes, bytes>, order: seq<bytes>)
    requires IsOrder(order, args)
    ensures Encode(f, [Text(simulation), Text(step), Args(args)], order)
         == TextBytes(0x0a, simulation) + (TextBytes(0x12, step) + EntriesBytes(0x1a, args, order))
  {
    BenchmarkRequestLayout(f, simulation, step, args, order);
  }

  /** A step response, byte for byte, and read back. */
  lemma StepResponseBytes(f: DurationFormat, simulation: bytes, step: bytes, d: Duration)
    requires f.Valid()
    ensures var m := [Text(simulation), Text(step), Time(d)];
            var data := TextBytes(0x0a, simulation) + (TextBytes(0x12, step) + TimeBytes(f, 0x1a, d));
            && Encode(f, m, []) == data
            && (|data| < TWO_TO_63 ==> Decode(f, data, Empty(STEP_RESPONSE)) == Ok(m))
  {
    hide Decode, EncodeFrom, TextBytes, TimeBytes;
    var m := [Text(simulation), Text(step), Time(d)];
    FieldFirst(f, m, [], 0);
    FieldFirst(f, m, [], 1);
    FieldFirst(f, m, [], 2);
    NoField(f, m, []);
    assert TimeBytes(f, 0x1a, d) + [] == TimeBytes(f, 0x1a, d);
    if |Encode(f, m, [])| < TWO_TO_63 {
      RoundTrip(f, STEP_RESPONSE, m, []);
    }
  }

  /** Messages of the simulation service, in every order of their arguments. */
  lemma SimulationRoundTrip(f: DurationFormat, m: Message, order: seq<bytes>, schema: Schema)
    requires f.Valid() && schema in {SIMULATION_REQUEST, STEP_REQUEST, STEP_RESPONSE}
    requires Matches(schema, m) && Walks(order, m) && |Encode(f, m, order)| < TWO_TO_63
    ensures Decode(f, Encode(f, m, order), Empty(schema)) == Ok(m)
  {
    RoundTrip(f, schema, m, order);
  }
}
