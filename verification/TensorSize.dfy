/** The sizes the GGUF parser computes for tensors (`kernel/llm_gguf.c`, lines 342-369) are those of the blocks the
    dequantisers read. */
module TensorSize {
  import opened Bytes
  import opened GgufLookup
  import Quant

  lemma {:induction false} ProductTwo(outer: seq<nat>, a: nat, b: nat)
    ensures Product(outer + [a, b]) == Product(outer) * a * b
  {
    ProductPush(outer, a);
    ProductPush(outer + [a], b);
    assert outer + [a] + [b] == outer + [a, b];
  }

  /** `rows` rows of `n` elements: whole words or half words, or whole blocks as they are packed; other row lengths have
      no size. */
  lemma RowsOf(n: nat, outer: seq<nat>, rows: nat, scale: u16, w: seq<int>)
    requires rows == Product(outer) && Quant.Fit4(w)
    ensures TrueSize(0, [n] + outer) == Some(rows * n * |PutLe32(0)|)
    ensures TrueSize(1, [n] + outer) == Some(rows * n * |PutLe16(0)|)
    ensures TrueSize(2, [n] + outer) ==
      if n > 0 && n % 32 == 0 then Some(rows * (n / 32) * |Quant.Pack4(scale, w)|) else None
    ensures TrueSize(14, [n] + outer) == if n > 0 && n % 256 == 0 then Some(rows * (n / 256) * 210) else None
  {
    var dims := [n] + outer;
    assert dims[1..] == outer;
    ProductTwo(outer, n, 4);
    ProductTwo(outer, n, 2);
    ProductTwo(outer, n / 32, 18);
    ProductTwo(outer, n / 256, 210);
  }
}
