/** Outcome types shared by every module of the model. */
module Results {

  /** A value that may be absent (Rust `Option`, a Python lookup that found nothing). */
  datatype Option<T> = None | Some(value: T)

  /** The outcome of code that can abort the whole process: a Rust `unwrap`, `expect` or an
      out-of-bounds index on the program's input. `Panic` carries no message; which of the
      source's `expect` calls fired is not observable by the caller. */
  datatype Checked<T> = Ok(value: T) | Panic

  /** The values of a sequence of outcomes, in order, as code collecting them with `unwrap`
      produces them: any `Panic` aborts the collection. */
  function AllOk<T>(rs: seq<Checked<T>>): Checked<seq<T>>
    decreases |rs|
  {
    if rs == [] then Ok([])
    else
      var init := AllOk(rs[..|rs| - 1]);
      if init.Panic? || rs[|rs| - 1].Panic? then Panic else Ok(init.value + [rs[|rs| - 1].value])
  }

  /** The collection succeeds exactly when every outcome does. */
  lemma {:induction false} AllOkIff<T>(rs: seq<Checked<T>>)
    ensures AllOk(rs).Ok? <==> forall i :: 0 <= i < |rs| ==> rs[i].Ok?
    decreases |rs|
  {
    if rs != [] {
      var init := rs[..|rs| - 1];
      AllOkIff(init);
      assert forall i :: 0 <= i < |init| ==> init[i] == rs[i];
    }
  }

  /** When it succeeds, the collection holds one value per outcome, in order. */
  lemma {:induction false} AllOkValues<T>(rs: seq<Checked<T>>)
    requires AllOk(rs).Ok?
    ensures |AllOk(rs).value| == |rs|
    ensures forall i :: 0 <= i < |rs| ==> rs[i].Ok? && AllOk(rs).value[i] == rs[i].value
    decreases |rs|
  {
    if rs != [] {
      var init := rs[..|rs| - 1];
      AllOkValues(init);
      var r, ri := AllOk(rs).value, AllOk(init).value;
      assert r == ri + [rs[|rs| - 1].value];
      forall i | 0 <= i < |rs|
        ensures rs[i].Ok? && r[i] == rs[i].value
      {
        if i < |init| {
          assert init[i] == rs[i];
        }
      }
    }
  }
}
