TestResult.DisplayName,TestResult.Outcome,TestResult.Duration,TestResult.ResourceCount,RandomSeed
Decimal.ShowTwoDigits (correctness),Failed,00:00:30.2158134,25659108,5
Decimal.ShowTwoDigits (well-formedness),Passed,00:00:00.2134985,21785,5
