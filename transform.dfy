/** The `transform` task of the cats ETL DAG: project every record of the
    search response onto its `url` field. */
module Transformer {

  /** The one field `transform` reads from every record. */
  const UrlField: string := "url"

  /** The only error `transform` raises: a dictionary lookup of a missing key. */
  datatype TransformError = KeyError(key: string)

  datatype Result<+T> = Ok(value: T) | Err(error: TransformError)

  /** A record of the search response: a JSON object, keyed by field name. */
  type Record<V> = map<string, V>

  /** `[i['url'] for i in data]`. The comprehension is evaluated completely
      before anything is returned, so a single record without `url` makes
      the whole call fail and no partial list is ever produced. */
  function Transform<V>(data: seq<Record<V>>): (r: Result<seq<V>>)
    ensures r.Ok? <==> forall i :: 0 <= i < |data| ==> UrlField in data[i]
    ensures r.Ok? ==> |r.value| == |data|
    ensures r.Ok? ==> forall i :: 0 <= i < |data| ==> r.value[i] == data[i][UrlField]
    ensures r.Err? ==> r.error == KeyError(UrlField)
    decreases |data|
  {
    if |data| == 0 then Ok([])
    else if UrlField !in data[0] then Err(KeyError(UrlField))
    else
      match Transform(data[1..])
      case Err(e) => Err(e)
      case Ok(rest) => Ok([data[0][UrlField]] + rest)
  }

  /** A record without `url` anywhere in the input fails the whole call,
      whatever the other records hold. */
  lemma {:induction false} MissingUrlFails<V>(data: seq<Record<V>>, j: nat)
    requires j < |data| && UrlField !in data[j]
    ensures Transform(data) == Err(KeyError(UrlField))
  {
  }

  /** Transforming a concatenation is concatenating the transforms: each
      record contributes its own url independently of its neighbours. */
  lemma {:induction false} TransformAppend<V>(a: seq<Record<V>>, b: seq<Record<V>>)
    requires Transform(a).Ok? && Transform(b).Ok?
    ensures Transform(a + b) == Ok(Transform(a).value + Transform(b).value)
  {
    var r := Transform(a + b);
    assert forall i :: 0 <= i < |a + b| ==> UrlField in (a + b)[i] by {
      forall i | 0 <= i < |a + b| ensures UrlField in (a + b)[i] {
        if i < |a| { assert (a + b)[i] == a[i]; } else { assert (a + b)[i] == b[i - |a|]; }
      }
    }
    var expected := Transform(a).value + Transform(b).value;
    assert |r.value| == |expected|;
    forall i | 0 <= i < |expected| ensures r.value[i] == expected[i] {
      if i < |a| { assert (a + b)[i] == a[i]; } else { assert (a + b)[i] == b[i - |a|]; }
    }
    assert r.value == expected;
  }
}
