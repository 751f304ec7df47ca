TestResult.DisplayName,TestResult.Outcome,TestResult.Duration,TestResult.ResourceCount,RandomSeed
Decimal.ShowTwoDigits (correctness),Failed,00:00:32.9434556,19561530,4
Decimal.ShowTwoDigits (well-formedness),Passed,00:00:00.2878975,21805,4
