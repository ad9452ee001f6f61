/** `ObjectIdentifierGenerator`: a purely in-memory counter with a format.
    Drawing an identifier is the base class's composition
    "take `getNextId()`, then `setNextId(id + 1)`", which for the in-memory
    counter just hands out the counter and increments it. */
module IdGenerator {
  import opened Wrappers
  import IdFormat

  /** The default identifier length of the no-argument constructor. */
  const DefaultLength: int := 10

  datatype Generator = Generator(nextId: int, format: IdFormat.Format)

  /** `new ObjectIdentifierGenerator()`: start at 1, length 10, '0' padding, no prefix. */
  function NewGenerator(): (g: Generator)
    ensures g.nextId == 1
    ensures g.format == IdFormat.Format(None, DefaultLength, '0')
  {
    Generator(1, IdFormat.Format(None, DefaultLength, '0'))
  }

  /** `new ObjectIdentifierGenerator(idLength)`: the defaults with another length. */
  function WithLength(idLength: int): (g: Generator)
    ensures g.nextId == 1 && g.format.length == idLength
    ensures g.format.prefix.None? && g.format.padChar == '0'
  {
    var d := NewGenerator();
    d.(format := d.format.(length := idLength))
  }

  /** `setStartId`: a negative start value is ignored, any other becomes the next id. */
  function SetStartId(g: Generator, startId: int): (r: Generator)
    ensures r.format == g.format
    ensures startId >= 0 ==> r.nextId == startId
    ensures startId < 0 ==> r == g
  {
    if startId >= 0 then g.(nextId := startId) else g
  }

  /** `new ObjectIdentifierGenerator(startId, idLength)`. */
  function WithStartAndLength(startId: int, idLength: int): (g: Generator)
    ensures g.nextId == (if startId >= 0 then startId else 1)
    ensures g.format == IdFormat.Format(None, idLength, '0')
  {
    SetStartId(WithLength(idLength), startId)
  }

  /** `nextIdentifier()`: the current counter value; the counter moves on by one. */
  function NextIdentifier(g: Generator): (r: (Generator, int))
    ensures r.1 == g.nextId
    ensures r.0.format == g.format && r.0.nextId == r.1 + 1
  {
    var id := g.nextId;
    (g.(nextId := id + 1), id)
  }

  /** `newIdentifier()`: the formatted form of `nextIdentifier()`. */
  function NewIdentifier(g: Generator): (r: (Generator, string))
    ensures r.0 == NextIdentifier(g).0
    ensures r.1 == IdFormat.FormatId(g.format, g.nextId)
  {
    var (g', id) := NextIdentifier(g);
    (g', IdFormat.FormatId(g.format, id))
  }

  /** `k` successive calls of `nextIdentifier()`. */
  function Generate(g: Generator, k: nat): (r: (Generator, seq<int>))
    decreases k
  {
    if k == 0 then (g, [])
    else
      var (g', id) := NextIdentifier(g);
      var (g'', ids) := Generate(g', k - 1);
      (g'', [id] + ids)
  }

  /** Successive identifiers are consecutive, starting at the counter's value. */
  lemma {:induction false} GenerateConsecutive(g: Generator, k: nat)
    ensures |Generate(g, k).1| == k
    ensures forall i :: 0 <= i < k ==> Generate(g, k).1[i] == g.nextId + i
    ensures Generate(g, k).0 == g.(nextId := g.nextId + k)
    decreases k
  {
    if k > 0 {
      var g' := NextIdentifier(g).0;
      GenerateConsecutive(g', k - 1);
    }
  }

  /** A default generator yields 1, 2, 3, ... */
  lemma DefaultGeneratorCountsFromOne(k: nat)
    ensures |Generate(NewGenerator(), k).1| == k
    ensures forall i :: 0 <= i < k ==> Generate(NewGenerator(), k).1[i] == i + 1
  {
    GenerateConsecutive(NewGenerator(), k);
  }

  /** `(startId, idLength)` with a non-negative start yields startId, startId + 1, ... */
  lemma StartIdFirst(startId: nat, idLength: int, k: nat)
    ensures |Generate(WithStartAndLength(startId, idLength), k).1| == k
    ensures forall i :: 0 <= i < k ==> Generate(WithStartAndLength(startId, idLength), k).1[i] == startId + i
  {
    GenerateConsecutive(WithStartAndLength(startId, idLength), k);
  }

  /** The test sequence "0500", "0501" of `ObjectIdentifierGenerator(500, 4)`. */
  lemma StartAt500Length4()
    ensures NewIdentifier(WithStartAndLength(500, 4)).1 == "0500"
    ensures NewIdentifier(NewIdentifier(WithStartAndLength(500, 4)).0).1 == "0501"
  {
    var fmt := IdFormat.Format(None, 4, '0');
    var g := WithStartAndLength(500, 4);
    assert g == Generator(500, fmt);
    assert IdFormat.NatDigits(50) == "50" by { assert IdFormat.NatDigits(5) == "5"; }
    assert IdFormat.DecimalString(500) == "500";
    assert IdFormat.DecimalString(501) == "501";
    assert IdFormat.LeftPad("500", 4, '0') == "0500";
    assert IdFormat.LeftPad("501", 4, '0') == "0501";
  }
}
